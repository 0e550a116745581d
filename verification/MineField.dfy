/** The 9x9 Minesweeper board: cells, neighbourhoods, and the bit arrays that hold cell sets. */
module MineField {
  import opened Bits

  const N: nat := 9
  const MINES: nat := 10
  const CELLS: nat := 81
  const BYTES: nat := 11

  type Cell = c: nat | c < CELLS witness 0

  /** b is in the 3x3 square around a, clipped to the board. */
  predicate Near(a: Cell, b: Cell)
  {
    a / N <= b / N + 1 && b / N <= a / N + 1 && a % N <= b % N + 1 && b % N <= a % N + 1
  }

  predicate Within(c: Cell, lo: nat, hi: nat) { lo <= c < hi }

  /** The cells numbered lo up to hi. */
  function Range(lo: nat, hi: nat): set<Cell>
  {
    set c: Cell | 0 <= c < CELLS && Within(c, lo, hi)
  }

  function AllCells(): set<Cell> { Range(0, CELLS) }

  /** The cells next to c. */
  function Around(c: Cell): set<Cell>
  {
    set d: Cell | 0 <= d < CELLS && d != c && Near(c, d)
  }

  /** No mine next to c. */
  predicate Zero(mines: set<Cell>, c: Cell)
  {
    Around(c) !! mines
  }

  lemma CountZero(mines: set<Cell>, c: Cell)
    ensures Zero(mines, c) <==> |Around(c) * mines| == 0
  {
    if !Zero(mines, c) {
      var d :| d in Around(c) && d in mines;
      assert d in Around(c) * mines;
    } else {
      assert Around(c) * mines == {};
    }
  }

  // ------------------------------------------------ scanning a neighbourhood

  /** The place of d in the scan of the 3x3 square around c. */
  function Order(c: Cell, d: Cell): nat
    requires Near(c, d)
  {
    (d / N + 1 - c / N) * 3 + (d % N + 1 - c % N)
  }

  /** The mined neighbours met in the first k places of the scan. */
  function Scanned(mines: set<Cell>, c: Cell, k: nat): set<Cell>
  {
    set d: Cell | d in Around(c) && d in mines && Order(c, d) < k
  }

  lemma ScanAll(mines: set<Cell>, c: Cell)
    ensures Scanned(mines, c, 9) == Around(c) * mines && Scanned(mines, c, 0) == {}
  {
  }

  predicate OnBoard(row: int, col: int) { 0 <= row < N && 0 <= col < N }

  /** There is a mined neighbour at that offset. */
  predicate Hit(mines: set<Cell>, c: Cell, dy: int, dx: int)
  {
    var row, col := c / N + dy, c % N + dx;
    !(dx == 0 && dy == 0) && OnBoard(row, col) && row * N + col in mines
  }

  lemma CellAt(c: Cell, dy: int, dx: int)
    requires -1 <= dy <= 1 && -1 <= dx <= 1 && OnBoard(c / N + dy, c % N + dx)
    ensures var e := (c / N + dy) * N + (c % N + dx);
            Near(c, e) && Order(c, e) == (dy + 1) * 3 + (dx + 1) && (e == c <==> dy == 0 && dx == 0)
  {
    var e := (c / N + dy) * N + (c % N + dx);
    assert e / N == c / N + dy && e % N == c % N + dx;
  }

  lemma OnlyCellAt(c: Cell, d: Cell, dy: int, dx: int)
    requires -1 <= dy <= 1 && -1 <= dx <= 1 && Near(c, d) && Order(c, d) == (dy + 1) * 3 + (dx + 1)
    ensures OnBoard(c / N + dy, c % N + dx) && d == (c / N + dy) * N + (c % N + dx)
  {
    assert d / N == c / N + dy && d % N == c % N + dx;
  }

  lemma ScanHit(mines: set<Cell>, c: Cell, dy: int, dx: int, k: nat)
    requires -1 <= dy <= 1 && -1 <= dx <= 1 && Hit(mines, c, dy, dx) && k == (dy + 1) * 3 + (dx + 1)
    ensures var e := (c / N + dy) * N + (c % N + dx);
            Scanned(mines, c, k + 1) == Scanned(mines, c, k) + {e} && e !in Scanned(mines, c, k)
  {
    CellAt(c, dy, dx);
    forall d | d in Scanned(mines, c, k + 1) && d !in Scanned(mines, c, k)
      ensures d == (c / N + dy) * N + (c % N + dx)
    {
      OnlyCellAt(c, d, dy, dx);
    }
  }

  lemma ScanMiss(mines: set<Cell>, c: Cell, dy: int, dx: int, k: nat)
    requires -1 <= dy <= 1 && -1 <= dx <= 1 && !Hit(mines, c, dy, dx) && k == (dy + 1) * 3 + (dx + 1)
    ensures Scanned(mines, c, k + 1) == Scanned(mines, c, k)
  {
    forall d | d in Scanned(mines, c, k + 1)
      ensures d in Scanned(mines, c, k)
    {
      if Order(c, d) == k {
        OnlyCellAt(c, d, dy, dx);
        CellAt(c, dy, dx);
      }
    }
  }

  lemma ScanNext(mines: set<Cell>, c: Cell, dy: int, dx: int, k: nat)
    requires -1 <= dy <= 1 && -1 <= dx <= 1 && k == (dy + 1) * 3 + (dx + 1)
    ensures |Scanned(mines, c, k + 1)| == |Scanned(mines, c, k)| + (if Hit(mines, c, dy, dx) then 1 else 0)
  {
    if Hit(mines, c, dy, dx) {
      ScanHit(mines, c, dy, dx, k);
    } else {
      ScanMiss(mines, c, dy, dx, k);
    }
  }

  // ------------------------------------------------ bit arrays

  predicate Has(bytes: seq<Byte>, c: Cell)
    requires |bytes| == BYTES
  {
    Bit(bytes[c / 8], c % 8)
  }

  function Cells(bytes: seq<Byte>): set<Cell>
    requires |bytes| == BYTES
  {
    set c: Cell | 0 <= c < CELLS && Has(bytes, c)
  }

  function SetByte(b: Byte, k: nat, on: bool): Byte
    requires k < 8
  {
    Pow2Byte();
    WithBitBound(b, k, on, 8);
    WithBit(b, k, on)
  }

  lemma SetBitCells(bytes: seq<Byte>, c: Cell, on: bool)
    requires |bytes| == BYTES
    ensures var r := bytes[c / 8 := SetByte(bytes[c / 8], c % 8, on)];
            Cells(r) == if on then Cells(bytes) + {c} else Cells(bytes) - {c}
  {
    var r := bytes[c / 8 := SetByte(bytes[c / 8], c % 8, on)];
    forall d: Cell | 0 <= d < CELLS
      ensures Has(r, d) == if d == c then on else Has(bytes, d)
    {
      if d / 8 == c / 8 {
        WithBitBits(bytes[c / 8], c % 8, on, d % 8);
        assert d == c <==> d % 8 == c % 8;
      }
    }
  }

  lemma NoCells(bytes: seq<Byte>)
    requires |bytes| == BYTES && forall i :: 0 <= i < BYTES ==> bytes[i] == 0
    ensures Cells(bytes) == {}
  {
    forall c: Cell | 0 <= c < CELLS
      ensures !Has(bytes, c)
    {
      ZeroBit(c % 8);
    }
  }

  // ------------------------------------------------ room for the mines

  lemma {:induction false} RangeSize(lo: nat, n: nat)
    requires lo + n <= CELLS
    ensures |Range(lo, lo + n)| == n
    decreases n
  {
    if n == 0 {
      assert Range(lo, lo) == {};
    } else {
      RangeSize(lo, n - 1);
      RangeGrows(lo, lo + n - 1);
    }
  }

  lemma RangeGrows(lo: nat, last: nat)
    requires lo <= last < CELLS
    ensures last !in Range(lo, last) && Range(lo, last + 1) == Range(lo, last) + {last}
  {
    assert Within(last, lo, last + 1);
  }

  predicate Eligible(c: Cell, mines: set<Cell>, safe: Cell)
  {
    c !in mines && !Near(safe, c)
  }

  /** Two whole rows are always out of the safe square, so fewer than ten mines leave a place. */
  lemma SomeEligible(mines: set<Cell>, safe: Cell) returns (c: Cell)
    requires |mines| < MINES
    ensures Eligible(c, mines, safe)
  {
    var lo := if safe / N >= 4 then 0 else 63;
    var rows := Range(lo, lo + 18);
    RangeSize(lo, 18);
    if rows <= mines {
      SubsetSize(rows, mines);
      assert false;
    }
    c :| c in rows && c !in mines;
    assert c / N == lo / N || c / N == lo / N + 1;
  }

  lemma {:induction false} SubsetSize<T>(a: set<T>, b: set<T>)
    requires a <= b
    ensures |a| <= |b|
  {
    if a != {} {
      var x :| x in a;
      SubsetSize(a - {x}, b - {x});
    }
  }
}
