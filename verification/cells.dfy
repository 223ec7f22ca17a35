/**
 The integer cell codes of the board and their meaning.

 A cell holds one code: 0..8 a revealed number, 9 a revealed mine, 10..18 a covered
 safe cell, 19 a covered mine, 20..28 a marked safe cell, 29 a marked mine. The code
 is a layer offset (0, 10 or 20) plus a digit (the adjacent-mine count, or 9 for a mine).
 */
module Cells {

  const CoverForCell: int := 10
  const MarkForCell: int := 10
  const EmptyCell: int := 0
  const MineCell: int := 9
  const CoveredMineCell: int := MineCell + CoverForCell
  const MarkedMineCell: int := CoveredMineCell + MarkForCell

  /** Every code a reachable board holds. */
  predicate InRange(v: int) {
    EmptyCell <= v <= MarkedMineCell
  }

  predicate AllInRange(f: seq<int>) {
    forall c :: 0 <= c < |f| ==> InRange(f[c])
  }

  /**
   The digit of a code: the adjacent-mine count, or 9 for a mine. It is the code less
   its layer offset, which on the codes 0..29 is the last decimal digit.
   */
  function Digit(v: int): int {
    if v > CoveredMineCell then v - CoverForCell - MarkForCell
    else if v > MineCell then v - CoverForCell
    else v
  }

  lemma DigitIsLastDecimal(v: int)
    requires InRange(v)
    ensures Digit(v) == v % 10
  {
  }

  predicate HoldsMine(v: int) {
    Digit(v) == MineCell
  }

  /** What a cell contains, independent of whether it is covered. */
  datatype Content = Safe(count: nat) | Mine

  /** What the player sees of a cell. */
  datatype Layer = Open | Covered | Marked

  datatype Cell = Cell(layer: Layer, content: Content) {
    predicate Valid() {
      content.Safe? ==> content.count <= 8
    }
  }

  function LayerOffset(l: Layer): int {
    match l
    case Open => 0
    case Covered => CoverForCell
    case Marked => CoverForCell + MarkForCell
  }

  function Encode(c: Cell): (v: int)
    requires c.Valid()
    ensures InRange(v)
    ensures Digit(v) == (if c.content.Mine? then MineCell else c.content.count)
  {
    LayerOffset(c.layer) + (match c.content case Mine => MineCell case Safe(k) => k)
  }

  function Decode(v: int): (c: Cell)
    requires InRange(v)
    ensures c.Valid()
    ensures c.content.Mine? <==> HoldsMine(v)
  {
    var layer := if v > CoveredMineCell then Marked else if v > MineCell then Covered else Open;
    var d := Digit(v);
    Cell(layer, if d == MineCell then Mine else Safe(d))
  }

  /** Decoding an encoded cell gives the cell back. */
  lemma DecodeEncode(c: Cell)
    requires c.Valid()
    ensures Decode(Encode(c)) == c
  {
  }

  /** Every code in range is the encoding of exactly one cell. */
  lemma EncodeDecode(v: int)
    requires InRange(v)
    ensures Encode(Decode(v)) == v
  {
  }
}
