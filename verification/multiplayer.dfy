/**
 The board of `MultiplayerBoard.java`: the solo board plus, in multiplayer mode,
 2 to 4 players with scores, a round-robin turn index and a cell-to-owner map.
 A cell is owned by whoever first uncovers it (directly or through the flood fill);
 the first owner scores for it. A click on a finished game starts a new one and
 is otherwise ignored.
 */
module Multiplayer {
  import opened Options
  import opened Cells
  import opened Grid
  import opened Layout
  import opened Generation
  import opened FloodFill
  import opened Paint
  import opened Solo

  /** The board, the mode, one score per player (none in solo mode), whose turn it is and the owners. */
  datatype Game = Game(board: Board, multiplayer: bool, scores: seq<int>, current: nat, owners: map<nat, nat>)

  const MinePenalty: int := 10

  /** The shape every operation needs: a well-sized in-range field and, in multiplayer mode, a current player. */
  predicate WellFormed(cfg: Config, g: Game) {
    && cfg.Valid()
    && |g.board.field| == cfg.dims.Cells()
    && AllInRange(g.board.field)
    && (g.multiplayer ==> g.current < |g.scores|)
  }

  /** Owners are cells of the grid and players of the game. */
  predicate OwnersInRange(g: Game) {
    forall k :: k in g.owners ==> k < |g.board.field| && g.owners[k] < |g.scores|
  }

  /** A mine is owned only once it has been revealed. */
  predicate OwnedMinesOpen(g: Game) {
    forall k :: k in g.owners && k < |g.board.field| ==> g.board.field[k] == MineCell || !HoldsMine(g.board.field[k])
  }

  /** Every open cell has an owner. */
  predicate OpenCellsOwned(g: Game) {
    forall c :: 0 <= c < |g.board.field| && g.board.field[c] <= MineCell ==> c in g.owners
  }

  /**
   What every game the class builds satisfies, on top of the solo board's invariant:
   2 to 4 players with non-negative scores and every open cell owned in multiplayer
   mode, no owners in solo mode, owners that are cells and players, and an owned mine
   only once it is revealed.
   */
  predicate GameValid(cfg: Config, g: Game) {
    && Solo.Valid(cfg, g.board)
    && WellFormed(cfg, g)
    && (g.multiplayer ==> 2 <= |g.scores| <= 4 && (forall i :: 0 <= i < |g.scores| ==> g.scores[i] >= 0) && OpenCellsOwned(g))
    && (!g.multiplayer ==> g.current == 0 && g.owners == map[])
    && OwnersInRange(g)
    && OwnedMinesOpen(g)
  }

  /** `newGame`: a fresh field, no owners, the first player to move and every score back to 0. */
  function Restart(cfg: Config, g: Game, draws: seq<nat>): (r: Option<Game>)
    requires cfg.Valid()
    requires g.multiplayer ==> 2 <= |g.scores| <= 4
    ensures r.Some? <==> Solo.NewGame(cfg, draws).Some?
    ensures r.Some? ==>
      && GameValid(cfg, r.value)
      && r.value.board.inGame && r.value.board.minesLeft == cfg.mines
      && Generated(cfg.dims, r.value.board.field)
      && r.value.multiplayer == g.multiplayer && |r.value.scores| == |g.scores|
      && r.value.owners == map[] && r.value.current == 0
      && (r.value.multiplayer ==> forall i :: 0 <= i < |r.value.scores| ==> r.value.scores[i] == 0)
  {
    match Solo.NewGame(cfg, draws)
    case None => None
    case Some(b) =>
      GeneratedMeaning(cfg.dims, b.field);
      var scores := if g.multiplayer then seq(|g.scores|, _ => 0) else g.scores;
      Some(Game(b, g.multiplayer, scores, 0, map[]))
  }

  /** The constructor: multiplayer only when asked for with 2 to 4 players, solo otherwise. */
  function Create(cfg: Config, multiplayer: bool, numPlayers: int, draws: seq<nat>): (r: Option<Game>)
    requires cfg.Valid()
    ensures r.Some? <==> Solo.NewGame(cfg, draws).Some?
    ensures r.Some? ==> GameValid(cfg, r.value) && r.value.board.inGame
    ensures r.Some? ==> (r.value.multiplayer <==> multiplayer && 2 <= numPlayers <= 4)
    ensures r.Some? && r.value.multiplayer ==> |r.value.scores| == numPlayers
  {
    var mp := multiplayer && 2 <= numPlayers <= 4;
    var scores := if mp then seq(numPlayers, _ => 0) else [];
    Restart(cfg, Game(Board([], false, 0), mp, scores, 0, map[]), draws)
  }

  /** `nextPlayer`: in multiplayer mode the turn passes round-robin; in solo mode nothing happens. */
  function NextPlayer(g: Game): (r: Game)
    requires g.multiplayer ==> |g.scores| > 0
    ensures r.board == g.board && r.scores == g.scores && r.owners == g.owners && r.multiplayer == g.multiplayer
    ensures g.multiplayer ==> r.current < |g.scores|
    ensures g.multiplayer && g.current < |g.scores| ==> r.current == (if g.current + 1 == |g.scores| then 0 else g.current + 1)
    ensures !g.multiplayer ==> r == g
  {
    if g.multiplayer then g.(current := (g.current + 1) % |g.scores|) else g
  }

  /**
   `getWinner`: a player with the highest score, the earliest one on a tie (only a
   strictly higher score replaces the candidate).
   */
  method Winner(scores: seq<int>) returns (w: nat)
    requires |scores| > 0
    ensures w < |scores|
    ensures forall i :: 0 <= i < |scores| ==> scores[i] <= scores[w]
    ensures forall i :: 0 <= i < w ==> scores[i] < scores[w]
  {
    w := 0;
    var i := 0;
    while i < |scores|
      invariant 0 <= i <= |scores| && w < |scores|
      invariant w < i || w == 0
      invariant forall j :: 0 <= j < i ==> scores[j] <= scores[w]
      invariant forall j :: 0 <= j < w ==> scores[j] < scores[w]
    {
      if scores[i] > scores[w] {
        w := i;
      }
      i := i + 1;
    }
  }

  /** The points a direct reveal earns: 1 for an empty cell, the number plus one otherwise. */
  function RevealPoints(k: int): (p: int)
    ensures k >= 0 ==> p == 1 + k
  {
    if k == EmptyCell then 1 else k + 1
  }

  /** Whether a left click on `pos` uncovers it: only covered, unmarked cells (10..19) are. */
  predicate Opens(g: Game, pos: nat)
    requires pos < |g.board.field|
  {
    MineCell < g.board.field[pos] <= CoveredMineCell
  }

  /**
   The sweep a reveal of an opening cell runs: the direct reveal is one touch of `pos`
   (it uncovers the cell and, in multiplayer mode, claims it if free), followed by the
   fill when the cell turns out empty.
   */
  function RevealSweep(cfg: Config, g: Game, pos: nat): (s: Sweep)
    requires WellFormed(cfg, g) && pos < |g.board.field| && Opens(g, pos)
    ensures Shaped(cfg.dims, s)
    ensures OwnersGrow(Sweep(g.board.field, g.owners, 0), s, g.multiplayer, g.current)
    ensures s.field == Solo.RevealAt(cfg.dims, g.board, pos).field
  {
    var d := cfg.dims;
    var start := Sweep(g.board.field, g.owners, 0);
    var s0 := Touch(start, pos, g.multiplayer, g.current);
    TouchLowers(d, start, pos, g.multiplayer, g.current);
    TouchOwners(d, start, pos, g.multiplayer, g.current);
    var s := FillFrom(d, s0, pos, g.multiplayer, g.current);
    OwnersGrowTrans(start, s0, s, g.multiplayer, g.current);
    RevealMpField(d, g.board, pos, s0, g.multiplayer, g.current);
    s
  }

  /** The fill step of a reveal: from the revealed cell when it is empty, otherwise nothing. */
  function FillFrom(d: Dims, s0: Sweep, pos: nat, tracking: bool, player: nat): (s: Sweep)
    requires Shaped(d, s0) && pos < |s0.field|
    ensures Shaped(d, s) && Lowered(s0.field, s.field) && OwnersGrow(s0, s, tracking, player)
    ensures s0.field[pos] != EmptyCell ==> s == s0
  {
    if s0.field[pos] == EmptyCell then
      FillOwners(d, s0, pos, tracking, player);
      Fill(d, s0, pos, tracking, player)
    else
      assert Changed(s0.field, s0.field) == {};
      s0
  }

  /** Whichever owners it tracks, the fill of a reveal leaves the field the solo reveal leaves. */
  lemma RevealMpField(d: Dims, b: Board, pos: nat, s0: Sweep, tracking: bool, player: nat)
    requires d.Valid() && |b.field| == d.Cells() && AllInRange(b.field) && pos < |b.field|
    requires MineCell < b.field[pos] <= CoveredMineCell
    requires s0.field == b.field[pos := b.field[pos] - CoverForCell]
    ensures Shaped(d, s0)
    ensures FillFrom(d, s0, pos, tracking, player).field == Solo.RevealAt(d, b, pos).field
  {
    if s0.field[pos] == EmptyCell {
      FillFieldOnly(d, s0, Sweep(s0.field, map[], 0), pos, tracking, player, false, 0);
    }
  }

  /**
   The left click on cell `pos` in a running game. The board changes as on the solo
   board; in multiplayer mode the cells uncovered get owners and points, and the turn
   passes unless the click ended the game.
   */
  function RevealMp(cfg: Config, g: Game, pos: nat): (r: Game)
    requires WellFormed(cfg, g) && pos < |g.board.field|
    ensures r.board == Solo.RevealAt(cfg.dims, g.board, pos)
    ensures r.multiplayer == g.multiplayer && |r.scores| == |g.scores|
    ensures !Opens(g, pos) ==> r == g
    ensures !r.multiplayer ==> r.owners == g.owners && r.scores == g.scores && r.current == g.current
    ensures r.current == if g.multiplayer && Opens(g, pos) && r.board.inGame then (g.current + 1) % |g.scores| else g.current
  {
    var v := g.board.field[pos];
    if v > CoveredMineCell then g
    else if v > MineCell && v < MarkedMineCell then
      var s := RevealSweep(cfg, g, pos);
      var r := Uncover(g, pos, s);
      var solo := Solo.RevealAt(cfg.dims, g.board, pos);
      assert r.board.inGame == solo.inGame && r.board.field == solo.field;
      UntrackedKeepsOwners(Sweep(g.board.field, g.owners, 0), s, g.multiplayer, g.current);
      r
    else g
  }

  /**
   The game after a click that uncovers `pos`, given the sweep `s` the click ran: the
   board takes the sweep's field and owners, a revealed mine ends the game, and in
   multiplayer mode the current player scores and the turn passes while the game runs.
   */
  function Uncover(g: Game, pos: nat, s: Sweep): (r: Game)
    requires pos < |g.board.field| && (g.multiplayer ==> g.current < |g.scores|)
    ensures r.board.field == s.field && r.owners == s.owners && r.board.minesLeft == g.board.minesLeft
    ensures r.board.inGame <==> g.board.inGame && g.board.field[pos] != CoveredMineCell
    ensures r.multiplayer == g.multiplayer && |r.scores| == |g.scores|
    ensures g.multiplayer ==> r.current < |g.scores|
    ensures g.multiplayer ==> r.current == if r.board.inGame then (g.current + 1) % |g.scores| else g.current
    ensures !g.multiplayer ==> r.scores == g.scores && r.current == g.current
  {
    var b := g.board;
    var k := b.field[pos] - CoverForCell;
    var claim := g.multiplayer && pos !in g.owners;
    var points := if claim then RevealPoints(k) else 0;
    var penalty := if k == MineCell && g.multiplayer then MinePenalty else 0;
    var inGame := if k == MineCell then false else b.inGame;
    var fillPoints := s.gained - (if claim then 1 else 0);
    var scores := if g.multiplayer then g.scores[g.current := g.scores[g.current] + points - penalty + fillPoints] else g.scores;
    var scored := Game(Board(s.field, inGame, b.minesLeft), g.multiplayer, scores, g.current, s.owners);
    if inGame then NextPlayer(scored) else scored
  }

  /** The score rule of an uncovering click, for a sweep that paid one point per new owner. */
  lemma UncoverScores(g: Game, pos: nat, s: Sweep)
    requires pos < |g.board.field| && g.multiplayer && g.current < |g.scores|
    requires MineCell < g.board.field[pos] <= CoveredMineCell
    requires s.gained == |s.owners.Keys| - |g.owners.Keys|
    ensures var r := Uncover(g, pos, s);
      && |r.scores| == |g.scores|
      && (forall i :: 0 <= i < |g.scores| && i != g.current ==> r.scores[i] == g.scores[i])
      && r.scores[g.current] == g.scores[g.current] + (|s.owners.Keys| - |g.owners.Keys|)
           + (if pos !in g.owners then g.board.field[pos] - CoverForCell else 0)
           - (if g.board.field[pos] == CoveredMineCell then MinePenalty else 0)
  {
  }

  /**
   Ownership after a reveal: an owner, once set, never changes; every new owner is the
   player whose turn it was; in multiplayer mode the owned cells grow by exactly the
   cells the click changed, and in solo mode nobody owns anything new.
   */
  lemma RevealMpOwners(cfg: Config, g: Game, pos: nat)
    requires WellFormed(cfg, g) && pos < |g.board.field|
    ensures var r := RevealMp(cfg, g, pos);
      && (forall k :: k in g.owners ==> k in r.owners && r.owners[k] == g.owners[k])
      && (forall k :: k in r.owners && k !in g.owners ==> r.owners[k] == g.current)
      && r.owners.Keys == g.owners.Keys + (if g.multiplayer then Changed(g.board.field, r.board.field) else {})
  {
    var r := RevealMp(cfg, g, pos);
    if Opens(g, pos) {
      var s := RevealSweep(cfg, g, pos);
      assert r.owners == s.owners && r.board.field == s.field;
    } else {
      assert Changed(g.board.field, g.board.field) == {};
    }
  }

  /**
   Scoring of a reveal in multiplayer mode: every newly owned cell earns the current
   player 1, the clicked cell earns its number on top if it was free, and uncovering a
   mine costs 10; no other player's score changes.
   */
  lemma RevealMpScores(cfg: Config, g: Game, pos: nat)
    requires WellFormed(cfg, g) && pos < |g.board.field| && g.multiplayer
    ensures var r := RevealMp(cfg, g, pos);
      && (forall i :: 0 <= i < |g.scores| && i != g.current ==> r.scores[i] == g.scores[i])
      && r.scores[g.current] == g.scores[g.current] + (|r.owners.Keys| - |g.owners.Keys|)
           + (if Opens(g, pos) && pos !in g.owners then g.board.field[pos] - CoverForCell else 0)
           - (if Opens(g, pos) && g.board.field[pos] == CoveredMineCell then MinePenalty else 0)
  {
    if Opens(g, pos) {
      var s := RevealSweep(cfg, g, pos);
      assert RevealMp(cfg, g, pos) == Uncover(g, pos, s);
      UncoverScores(g, pos, s);
    }
  }

  /** A click that changes nothing but the board, which the solo rule changes. */
  function ToggleMarkMp(g: Game, pos: nat): (r: Game)
    requires pos < |g.board.field|
    ensures r.board == Solo.ToggleMarkAt(g.board, pos)
    ensures r.scores == g.scores && r.current == g.current && r.owners == g.owners && r.multiplayer == g.multiplayer
  {
    g.(board := Solo.ToggleMarkAt(g.board, pos))
  }

  /**
   `mousePressed`: a click on a finished game restarts it and does nothing else; in a
   running game a click outside the grid or on a marked or open cell changes nothing.
   */
  function Press(cfg: Config, g: Game, cmd: Command, draws: seq<nat>): (r: Option<Game>)
    requires GameValid(cfg, g)
    ensures !g.board.inGame ==> r == Restart(cfg, g, draws)
    ensures g.board.inGame ==> r.Some?
    ensures g.board.inGame && cmd.pos >= |g.board.field| ==> r == Some(g)
    ensures g.board.inGame && cmd.pos < |g.board.field| ==>
      r.value == match cmd
        case Reveal(p) => RevealMp(cfg, g, p)
        case ToggleMark(p) => ToggleMarkMp(g, p)
    ensures r.Some? ==> GameValid(cfg, r.value)
  {
    if !g.board.inGame then Restart(cfg, g, draws)
    else if cmd.pos >= |g.board.field| then Some(g)
    else match cmd
      case Reveal(p) =>
        RevealMpValid(cfg, g, p);
        Some(RevealMp(cfg, g, p))
      case ToggleMark(p) =>
        ToggleMarkMpValid(cfg, g, p);
        Some(ToggleMarkMp(g, p))
  }

  /** The game invariant survives a reveal. */
  lemma RevealMpValid(cfg: Config, g: Game, pos: nat)
    requires GameValid(cfg, g) && pos < |g.board.field|
    ensures GameValid(cfg, RevealMp(cfg, g, pos))
  {
    var r := RevealMp(cfg, g, pos);
    Solo.RevealSparesMines(cfg, g.board, pos);
    Solo.RevealValid(cfg, g.board, pos);
    RevealKeepsOwnersInRange(cfg, g, pos);
    RevealKeepsOwnedMines(cfg, g, pos);
    if g.multiplayer {
      RevealMpParts(cfg, g, pos);
    }
    assert Solo.Valid(cfg, r.board);
  }

  /** The parts of the game invariant that only a multiplayer game has survive a reveal. */
  lemma RevealMpParts(cfg: Config, g: Game, pos: nat)
    requires WellFormed(cfg, g) && pos < |g.board.field| && OwnersInRange(g) && OwnedMinesOpen(g)
    requires g.multiplayer && 2 <= |g.scores| <= 4 && (forall i :: 0 <= i < |g.scores| ==> g.scores[i] >= 0)
    requires OpenCellsOwned(g)
    ensures var r := RevealMp(cfg, g, pos);
      && 2 <= |r.scores| <= 4 && (forall i :: 0 <= i < |r.scores| ==> r.scores[i] >= 0) && OpenCellsOwned(r)
  {
    assert g.board.field[pos] == CoveredMineCell ==> pos !in g.owners by {
      if pos in g.owners {
        assert Digit(g.board.field[pos]) != MineCell || g.board.field[pos] == MineCell;
      }
    }
    RevealKeepsScores(cfg, g, pos);
    RevealOwnsOpenCells(cfg, g, pos);
  }

  /** Owned cells stay in the grid and owned by a player. */
  lemma RevealKeepsOwnersInRange(cfg: Config, g: Game, pos: nat)
    requires WellFormed(cfg, g) && pos < |g.board.field| && OwnersInRange(g)
    ensures OwnersInRange(RevealMp(cfg, g, pos))
  {
    var r := RevealMp(cfg, g, pos);
    RevealMpOwners(cfg, g, pos);
    forall q | q in r.owners
      ensures q < |r.board.field| && r.owners[q] < |r.scores|
    {
      if q !in g.owners {
        assert q in Changed(g.board.field, r.board.field);
      }
    }
  }

  /** An owned mine is always a revealed one: the fill never reaches a mine, and a clicked mine is revealed. */
  lemma RevealKeepsOwnedMines(cfg: Config, g: Game, pos: nat)
    requires WellFormed(cfg, g) && pos < |g.board.field| && OwnedMinesOpen(g)
    requires var h := Solo.RevealAt(cfg.dims, g.board, pos).field;
      forall c :: 0 <= c < |h| && c != pos && HoldsMine(g.board.field[c]) ==> h[c] == g.board.field[c]
    ensures OwnedMinesOpen(RevealMp(cfg, g, pos))
  {
    var r := RevealMp(cfg, g, pos);
    RevealMpOwners(cfg, g, pos);
    OwnedMinesStep(g.board.field, r.board.field, g.owners.Keys, r.owners.Keys, pos);
  }

  lemma OwnedMinesStep(f: seq<int>, h: seq<int>, before: set<nat>, after: set<nat>, pos: nat)
    requires Lowered(f, h) && AllInRange(h) && pos < |f|
    requires forall k :: k in before && k < |f| ==> f[k] == MineCell || !HoldsMine(f[k])
    requires after <= before + Changed(f, h)
    requires h[pos] == f[pos] || h[pos] <= MineCell
    requires forall c :: 0 <= c < |f| && c != pos && HoldsMine(f[c]) ==> h[c] == f[c]
    ensures forall k :: k in after && k < |h| ==> h[k] == MineCell || !HoldsMine(h[k])
  {
    forall q | q in after && q < |h|
      ensures h[q] == MineCell || !HoldsMine(h[q])
    {
      if h[q] == f[q] {
        assert q in before;
      } else if q != pos {
        assert !HoldsMine(f[q]) && Digit(h[q]) == Digit(f[q]);
      } else {
        assert 0 <= h[q] <= MineCell;
      }
    }
  }

  /** In multiplayer mode every open cell stays owned. */
  lemma RevealOwnsOpenCells(cfg: Config, g: Game, pos: nat)
    requires WellFormed(cfg, g) && pos < |g.board.field| && g.multiplayer && OpenCellsOwned(g)
    ensures OpenCellsOwned(RevealMp(cfg, g, pos))
  {
    var r := RevealMp(cfg, g, pos);
    RevealMpOwners(cfg, g, pos);
    OpenOwnedStep(g.board.field, r.board.field, g.owners.Keys, r.owners.Keys);
  }

  lemma OpenOwnedStep(f: seq<int>, h: seq<int>, before: set<nat>, after: set<nat>)
    requires |h| == |f|
    requires forall c :: 0 <= c < |f| && f[c] <= MineCell ==> c in before
    requires after == before + Changed(f, h)
    ensures forall c :: 0 <= c < |h| && h[c] <= MineCell ==> c in after
  {
    forall c | 0 <= c < |h| && h[c] <= MineCell
      ensures c in after
    {
      if h[c] != f[c] {
        assert c in Changed(f, h);
      }
    }
  }

  /** In multiplayer mode no score goes negative: a mine's penalty only follows its 10 points. */
  lemma RevealKeepsScores(cfg: Config, g: Game, pos: nat)
    requires WellFormed(cfg, g) && pos < |g.board.field| && g.multiplayer
    requires forall i :: 0 <= i < |g.scores| ==> g.scores[i] >= 0
    requires g.board.field[pos] == CoveredMineCell ==> pos !in g.owners
    ensures var r := RevealMp(cfg, g, pos);
      forall i :: 0 <= i < |r.scores| ==> r.scores[i] >= 0
  {
    var r := RevealMp(cfg, g, pos);
    var f := g.board.field;
    RevealMpOwners(cfg, g, pos);
    RevealMpScores(cfg, g, pos);
    var mine := Opens(g, pos) && f[pos] == CoveredMineCell;
    if mine {
      assert pos in Changed(f, r.board.field);
    }
    PenaltyCovered(g.scores[g.current], g.owners.Keys, r.owners.Keys, pos, mine,
                   if Opens(g, pos) && pos !in g.owners then f[pos] - CoverForCell else 0);
  }

  /** The score arithmetic of a reveal: the penalty for a mine is paid for by its own points. */
  lemma PenaltyCovered(score: int, before: set<nat>, after: set<nat>, pos: nat, mine: bool, bonus: int)
    requires score >= 0 && before <= after && bonus >= 0
    requires mine ==> pos !in before && pos in after && bonus == MineCell
    ensures score + (|after| - |before|) + bonus - (if mine then MinePenalty else 0) >= 0
  {
    if mine {
      SubsetCard(before + {pos}, after);
    } else {
      SubsetCard(before, after);
    }
  }

  /** The game invariant survives a mark toggle. */
  lemma ToggleMarkMpValid(cfg: Config, g: Game, pos: nat)
    requires GameValid(cfg, g) && pos < |g.board.field|
    ensures GameValid(cfg, ToggleMarkMp(g, pos))
  {
    Solo.ToggleMarkValid(cfg, g.board, pos);
    Solo.ToggleMarkBudget(g.board, pos);
  }

  /**
   In multiplayer mode uncovering a mine leaves the player's score where it was
   (10 for the cell, then the 10-point penalty), ends the game and keeps the turn.
   */
  lemma MineRevealNetZero(cfg: Config, g: Game, pos: nat)
    requires WellFormed(cfg, g) && OwnedMinesOpen(g) && pos < |g.board.field| && g.multiplayer
    requires g.board.field[pos] == CoveredMineCell
    ensures var r := RevealMp(cfg, g, pos);
      && r.scores == g.scores
      && !r.board.inGame
      && r.current == g.current
      && r.owners == g.owners[pos := g.current]
  {
    var r := RevealMp(cfg, g, pos);
    assert pos !in g.owners;
    assert Changed(g.board.field, r.board.field) == {pos};
    RevealMpOwners(cfg, g, pos);
    assert r.owners.Keys == g.owners.Keys + {pos};
    RevealMpScores(cfg, g, pos);
  }

  /**
   In multiplayer mode every click that uncovers a safe cell passes the turn, even the
   one that wins the game (the win is only noticed by the next repaint).
   */
  lemma SafeRevealAdvances(cfg: Config, g: Game, pos: nat)
    requires GameValid(cfg, g) && g.board.inGame && pos < |g.board.field| && g.multiplayer
    requires MineCell < g.board.field[pos] < CoveredMineCell
    ensures RevealMp(cfg, g, pos).current == (g.current + 1) % |g.scores|
    ensures RevealMp(cfg, g, pos).current < |g.scores|
  {
  }

  /**
   The two boards treat a click on a finished game differently: the solo board opens the
   clicked cell of the new game, the multiplayer board leaves the new game untouched.
   */
  lemma FinishedGameClick(cfg: Config, b: Board, g: Game, p: nat, draws: seq<nat>)
    requires Solo.Valid(cfg, b) && !b.inGame && GameValid(cfg, g) && !g.board.inGame
    requires p < cfg.dims.Cells() && Solo.NewGame(cfg, draws).Some?
    ensures var solo := Solo.Press(cfg, b, Reveal(p), draws);
      solo.Some? && solo.value.field[p] <= MineCell
    ensures var mp := Press(cfg, g, Reveal(p), draws);
      mp.Some? && mp.value.board.field[p] > MineCell
  {
    var nb := Solo.NewGame(cfg, draws).value;
    GeneratedAt(cfg.dims, nb.field, p);
  }
}
