/** The board of the very first game, if the first reveal is at row 7, column 8. */
module FirstBoard {
  import opened MineField
  import opened MineDraw
  import L = Lcg

  const SEED: nat := 1
  const START: Cell := 61

  // Row by row, with a star for a mine:
  //   . . . . . . . . *
  //   * . . . . . . . .
  //   * . . . . . . . .
  //   . . . . . . . * *
  //   * . . . . . . . .
  //   . . . . . . . . .
  //   . * . . . . . . .
  //   . . . . . . . . .
  //   . * . . . . . * *

  /** The try that mines a cell. */
  function TryOf(c: Cell): nat
  {
    match c
    case 35 => 1
    case 18 => 2
    case 8 => 3
    case 34 => 4
    case 55 => 5
    case 80 => 6
    case 36 => 7
    case 73 => 8
    case 9 => 9
    case 79 => 10
    case _ => 11
  }

  predicate Mined(c: Cell)
  {
    || c == 8 || c == 9 || c == 18 || c == 34 || c == 35
    || c == 36 || c == 55 || c == 73 || c == 79 || c == 80
  }

  lemma MinedIs(c: Cell)
    ensures Mined(c) <==> c in Board()
  {
  }

  function Laid(k: nat): set<Cell> { set c: Cell | 0 <= c < CELLS && TryOf(c) <= k }

  function Board(): set<Cell> { Laid(MINES) }

  /** The seed after k tries. */
  function SeedAfter(k: nat): nat
  {
    match k
    case 0 => 3006791471
    case 1 => 2884774204
    case 2 => 521406149
    case 3 => 2532644890
    case 4 => 835673931
    case 5 => 592878888
    case 6 => 615729729
    case 7 => 809278438
    case 8 => 4214400295
    case 9 => 101475284
    case _ => 1672038781
  }

  lemma SeedNext(k: nat)
    requires k < MINES
    ensures L.Next(SeedAfter(k)) == SeedAfter(k + 1)
  {
    match k
    case 0 => assert L.Next(3006791471) == 2884774204;
    case 1 => assert L.Next(2884774204) == 521406149;
    case 2 => assert L.Next(521406149) == 2532644890;
    case 3 => assert L.Next(2532644890) == 835673931;
    case 4 => assert L.Next(835673931) == 592878888;
    case 5 => assert L.Next(592878888) == 615729729;
    case 6 => assert L.Next(615729729) == 809278438;
    case 7 => assert L.Next(809278438) == 4214400295;
    case 8 => assert L.Next(4214400295) == 101475284;
    case 9 => assert L.Next(101475284) == 1672038781;
  }

  lemma SeedDraws(k: nat)
    requires 0 < k <= MINES
    ensures TryOf(Drawn(SeedAfter(k))) == k && !Near(START, Drawn(SeedAfter(k)))
  {
  }

  lemma OneCell(c: Cell, d: Cell)
    requires TryOf(c) == TryOf(d) <= MINES
    ensures c == d
  {
  }

  lemma LaidNext(k: nat)
    requires k < MINES
    ensures var c := Drawn(SeedAfter(k + 1));
            c !in Laid(k) && Laid(k + 1) == Laid(k) + {c} && Eligible(c, Laid(k), START)
  {
    SeedDraws(k + 1);
    var c := Drawn(SeedAfter(k + 1));
    forall d: Cell
      ensures d in Laid(k + 1) <==> d in Laid(k) || d == c
    {
      if TryOf(d) == k + 1 {
        OneCell(c, d);
      }
    }
  }

  ghost predicate Dealt(seed: nat, safe: Cell, k: nat) { Tries(seed, safe, k) == Deal(Laid(k), SeedAfter(k)) }

  lemma NoneDealt(seed: nat, safe: Cell)
    requires seed == SEED && safe == START
    ensures Dealt(seed, safe, 0)
  {
    assert Laid(0) == {};
  }

  lemma OneMoreDealt(seed: nat, safe: Cell, k: nat)
    requires safe == START && k < MINES && Dealt(seed, safe, k)
    ensures Dealt(seed, safe, k + 1)
  {
    SeedNext(k);
    LaidNext(k);
    NextTry(seed, safe, k, Deal(Laid(k), SeedAfter(k)), SeedAfter(k + 1));
  }

  /** Each of the first ten tries lays a mine. */
  lemma FirstTries(seed: nat, safe: Cell, k: nat)
    requires seed == SEED && safe == START && k <= MINES
    ensures Dealt(seed, safe, k)
  {
    NoneDealt(seed, safe);
    for i := 0 to k
      invariant Dealt(seed, safe, i)
    {
      OneMoreDealt(seed, safe, i);
    }
  }

  lemma LaidCount(k: nat)
    requires k <= MINES
    ensures |Laid(k)| == k
  {
    assert Laid(0) == {};
    for i := 0 to k
      invariant |Laid(i)| == i
    {
      LaidNext(i);
    }
  }

  /** From the seed the app starts with, a first reveal there draws this board. */
  lemma BoardIsDrawn()
    ensures Lays(SEED, START, Board(), SeedAfter(MINES))
  {
    FirstTries(SEED, START, MINES);
    FirstTries(SEED, START, MINES - 1);
    LaidCount(MINES);
    LaidCount(MINES - 1);
    assert LastTry(SEED, START, MINES);
  }
}
