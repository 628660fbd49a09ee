/**
 * Concrete boards on which Conway's rule is known to act in a particular way:
 * a lone cell dies, a 2 x 2 block is a still life, and a blinker flips
 * between a horizontal and a vertical bar.
 */
module Patterns {
  import opened Board
  import opened Rules

  /** A 3 x 3 board whose only live cell is the centre. */
  const LoneCell: Matrix := [[false, false, false], [false, true, false], [false, false, false]]

  /** A 2 x 2 block in the middle of a 4 x 4 board. */
  const Block: Matrix :=
    [[false, false, false, false],
     [false, true, true, false],
     [false, true, true, false],
     [false, false, false, false]]

  /** A horizontal bar of three cells in the middle of a 5 x 5 board. */
  const BlinkerH: Matrix :=
    [[false, false, false, false, false],
     [false, false, false, false, false],
     [false, true, true, true, false],
     [false, false, false, false, false],
     [false, false, false, false, false]]

  /** The same bar turned upright. */
  const BlinkerV: Matrix :=
    [[false, false, false, false, false],
     [false, false, true, false, false],
     [false, false, true, false, false],
     [false, false, true, false, false],
     [false, false, false, false, false]]

  /** A lone live cell has no live neighbour, so it dies, and no dead cell has 3: the board becomes all dead. */
  lemma LoneCellDies()
    ensures Step(LoneCell, 3, 3) == Blank(3, 3)
  {
    LoneCellRow0();
    LoneCellRow1();
    LoneCellRow2();
    SameCells(Step(LoneCell, 3, 3), Blank(3, 3), 3, 3);
  }

  /** Each block cell has 3 live neighbours and no dead cell has 3: the block is a still life. */
  lemma BlockIsStill()
    ensures Step(Block, 4, 4) == Block
  {
    BlockRow0();
    BlockRow1();
    BlockRow2();
    BlockRow3();
    SameCells(Step(Block, 4, 4), Block, 4, 4);
  }

  /** The horizontal bar turns upright: its ends die, its centre survives with 2, and the cells above and below the centre are born with 3. */
  lemma BlinkerTurnsUp()
    ensures Step(BlinkerH, 5, 5) == BlinkerV
  {
    BlinkerHRow0();
    BlinkerHRow1();
    BlinkerHRow2();
    BlinkerHRow3();
    BlinkerHRow4();
    SameCells(Step(BlinkerH, 5, 5), BlinkerV, 5, 5);
  }

  /** The upright bar turns back the same way. */
  lemma BlinkerTurnsDown()
    ensures Step(BlinkerV, 5, 5) == BlinkerH
  {
    BlinkerVRow0();
    BlinkerVRow1();
    BlinkerVRow2();
    BlinkerVRow3();
    BlinkerVRow4();
    SameCells(Step(BlinkerV, 5, 5), BlinkerH, 5, 5);
  }

  /** The blinker is an oscillator of period 2: it changes in one generation and is back after two. */
  lemma BlinkerPeriodTwo()
    ensures Step(BlinkerH, 5, 5) != BlinkerH
    ensures Step(Step(BlinkerH, 5, 5), 5, 5) == BlinkerH
  {
    BlinkerTurnsUp();
    BlinkerTurnsDown();
    assert Step(BlinkerH, 5, 5)[1][2] != BlinkerH[1][2];
  }

  // Row by row, the next generation of the lone cell.

  lemma LoneCellRow0()
    ensures forall c :: 0 <= c < 3 ==> Step(LoneCell, 3, 3)[0][c] == Blank(3, 3)[0][c]
  {
    AliveNeighborsEight(LoneCell, 3, 3, 0, 0);
    AliveNeighborsEight(LoneCell, 3, 3, 0, 1);
    AliveNeighborsEight(LoneCell, 3, 3, 0, 2);
  }

  lemma LoneCellRow1()
    ensures forall c :: 0 <= c < 3 ==> Step(LoneCell, 3, 3)[1][c] == Blank(3, 3)[1][c]
  {
    AliveNeighborsEight(LoneCell, 3, 3, 1, 0);
    AliveNeighborsEight(LoneCell, 3, 3, 1, 1);
    AliveNeighborsEight(LoneCell, 3, 3, 1, 2);
  }

  lemma LoneCellRow2()
    ensures forall c :: 0 <= c < 3 ==> Step(LoneCell, 3, 3)[2][c] == Blank(3, 3)[2][c]
  {
    AliveNeighborsEight(LoneCell, 3, 3, 2, 0);
    AliveNeighborsEight(LoneCell, 3, 3, 2, 1);
    AliveNeighborsEight(LoneCell, 3, 3, 2, 2);
  }

  // Row by row, the next generation of the block.

  lemma BlockRow0()
    ensures forall c :: 0 <= c < 4 ==> Step(Block, 4, 4)[0][c] == Block[0][c]
  {
    AliveNeighborsEight(Block, 4, 4, 0, 0);
    AliveNeighborsEight(Block, 4, 4, 0, 1);
    AliveNeighborsEight(Block, 4, 4, 0, 2);
    AliveNeighborsEight(Block, 4, 4, 0, 3);
  }

  lemma BlockRow1()
    ensures forall c :: 0 <= c < 4 ==> Step(Block, 4, 4)[1][c] == Block[1][c]
  {
    AliveNeighborsEight(Block, 4, 4, 1, 0);
    AliveNeighborsEight(Block, 4, 4, 1, 1);
    AliveNeighborsEight(Block, 4, 4, 1, 2);
    AliveNeighborsEight(Block, 4, 4, 1, 3);
  }

  lemma BlockRow2()
    ensures forall c :: 0 <= c < 4 ==> Step(Block, 4, 4)[2][c] == Block[2][c]
  {
    AliveNeighborsEight(Block, 4, 4, 2, 0);
    AliveNeighborsEight(Block, 4, 4, 2, 1);
    AliveNeighborsEight(Block, 4, 4, 2, 2);
    AliveNeighborsEight(Block, 4, 4, 2, 3);
  }

  lemma BlockRow3()
    ensures forall c :: 0 <= c < 4 ==> Step(Block, 4, 4)[3][c] == Block[3][c]
  {
    AliveNeighborsEight(Block, 4, 4, 3, 0);
    AliveNeighborsEight(Block, 4, 4, 3, 1);
    AliveNeighborsEight(Block, 4, 4, 3, 2);
    AliveNeighborsEight(Block, 4, 4, 3, 3);
  }

  // Row by row, the next generation of the horizontal bar.

  lemma BlinkerHRow0()
    ensures forall c :: 0 <= c < 5 ==> Step(BlinkerH, 5, 5)[0][c] == BlinkerV[0][c]
  {
    AliveNeighborsEight(BlinkerH, 5, 5, 0, 0);
    AliveNeighborsEight(BlinkerH, 5, 5, 0, 1);
    AliveNeighborsEight(BlinkerH, 5, 5, 0, 2);
    AliveNeighborsEight(BlinkerH, 5, 5, 0, 3);
    AliveNeighborsEight(BlinkerH, 5, 5, 0, 4);
  }

  lemma BlinkerHRow1()
    ensures forall c :: 0 <= c < 5 ==> Step(BlinkerH, 5, 5)[1][c] == BlinkerV[1][c]
  {
    AliveNeighborsEight(BlinkerH, 5, 5, 1, 0);
    AliveNeighborsEight(BlinkerH, 5, 5, 1, 1);
    AliveNeighborsEight(BlinkerH, 5, 5, 1, 2);
    AliveNeighborsEight(BlinkerH, 5, 5, 1, 3);
    AliveNeighborsEight(BlinkerH, 5, 5, 1, 4);
  }

  lemma BlinkerHRow2()
    ensures forall c :: 0 <= c < 5 ==> Step(BlinkerH, 5, 5)[2][c] == BlinkerV[2][c]
  {
    AliveNeighborsEight(BlinkerH, 5, 5, 2, 0);
    AliveNeighborsEight(BlinkerH, 5, 5, 2, 1);
    AliveNeighborsEight(BlinkerH, 5, 5, 2, 2);
    AliveNeighborsEight(BlinkerH, 5, 5, 2, 3);
    AliveNeighborsEight(BlinkerH, 5, 5, 2, 4);
  }

  lemma BlinkerHRow3()
    ensures forall c :: 0 <= c < 5 ==> Step(BlinkerH, 5, 5)[3][c] == BlinkerV[3][c]
  {
    AliveNeighborsEight(BlinkerH, 5, 5, 3, 0);
    AliveNeighborsEight(BlinkerH, 5, 5, 3, 1);
    AliveNeighborsEight(BlinkerH, 5, 5, 3, 2);
    AliveNeighborsEight(BlinkerH, 5, 5, 3, 3);
    AliveNeighborsEight(BlinkerH, 5, 5, 3, 4);
  }

  lemma BlinkerHRow4()
    ensures forall c :: 0 <= c < 5 ==> Step(BlinkerH, 5, 5)[4][c] == BlinkerV[4][c]
  {
    AliveNeighborsEight(BlinkerH, 5, 5, 4, 0);
    AliveNeighborsEight(BlinkerH, 5, 5, 4, 1);
    AliveNeighborsEight(BlinkerH, 5, 5, 4, 2);
    AliveNeighborsEight(BlinkerH, 5, 5, 4, 3);
    AliveNeighborsEight(BlinkerH, 5, 5, 4, 4);
  }

  // Row by row, the next generation of the upright bar.

  lemma BlinkerVRow0()
    ensures forall c :: 0 <= c < 5 ==> Step(BlinkerV, 5, 5)[0][c] == BlinkerH[0][c]
  {
    AliveNeighborsEight(BlinkerV, 5, 5, 0, 0);
    AliveNeighborsEight(BlinkerV, 5, 5, 0, 1);
    AliveNeighborsEight(BlinkerV, 5, 5, 0, 2);
    AliveNeighborsEight(BlinkerV, 5, 5, 0, 3);
    AliveNeighborsEight(BlinkerV, 5, 5, 0, 4);
  }

  lemma BlinkerVRow1()
    ensures forall c :: 0 <= c < 5 ==> Step(BlinkerV, 5, 5)[1][c] == BlinkerH[1][c]
  {
    AliveNeighborsEight(BlinkerV, 5, 5, 1, 0);
    AliveNeighborsEight(BlinkerV, 5, 5, 1, 1);
    AliveNeighborsEight(BlinkerV, 5, 5, 1, 2);
    AliveNeighborsEight(BlinkerV, 5, 5, 1, 3);
    AliveNeighborsEight(BlinkerV, 5, 5, 1, 4);
  }

  lemma BlinkerVRow2()
    ensures forall c :: 0 <= c < 5 ==> Step(BlinkerV, 5, 5)[2][c] == BlinkerH[2][c]
  {
    AliveNeighborsEight(BlinkerV, 5, 5, 2, 0);
    AliveNeighborsEight(BlinkerV, 5, 5, 2, 1);
    AliveNeighborsEight(BlinkerV, 5, 5, 2, 2);
    AliveNeighborsEight(BlinkerV, 5, 5, 2, 3);
    AliveNeighborsEight(BlinkerV, 5, 5, 2, 4);
  }

  lemma BlinkerVRow3()
    ensures forall c :: 0 <= c < 5 ==> Step(BlinkerV, 5, 5)[3][c] == BlinkerH[3][c]
  {
    AliveNeighborsEight(BlinkerV, 5, 5, 3, 0);
    AliveNeighborsEight(BlinkerV, 5, 5, 3, 1);
    AliveNeighborsEight(BlinkerV, 5, 5, 3, 2);
    AliveNeighborsEight(BlinkerV, 5, 5, 3, 3);
    AliveNeighborsEight(BlinkerV, 5, 5, 3, 4);
  }

  lemma BlinkerVRow4()
    ensures forall c :: 0 <= c < 5 ==> Step(BlinkerV, 5, 5)[4][c] == BlinkerH[4][c]
  {
    AliveNeighborsEight(BlinkerV, 5, 5, 4, 0);
    AliveNeighborsEight(BlinkerV, 5, 5, 4, 1);
    AliveNeighborsEight(BlinkerV, 5, 5, 4, 2);
    AliveNeighborsEight(BlinkerV, 5, 5, 4, 3);
    AliveNeighborsEight(BlinkerV, 5, 5, 4, 4);
  }
}
