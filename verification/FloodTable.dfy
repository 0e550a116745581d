/** The fill's first turns on the board of FirstBoard, as tables. */
module FloodTable {
  import opened MineField
  import opened FirstBoard

  const LOST: Cell := 25

  /** The first TURNS turns each open one cell. */
  const TURNS: nat := 44

  /** The top of the stack before turn t, down to the next cell with no mine around it. */
  function Top(t: nat): (r: seq<Cell>)
    ensures |r| > 0
  {
    match t
    case 1 => [62, 69, 70, 71]
    case 2 => [62, 69, 70]
    case 3 => [62, 69]
    case 4 => [62]
    case 5 => [53]
    case 6 => [52]
    case 7 => [60]
    case 8 => [68]
    case 9 => [77, 78]
    case 10 => [77]
    case 11 => [76]
    case 12 => [75]
    case 13 => [67, 74]
    case 14 => [67]
    case 15 => [66]
    case 16 => [58, 65]
    case 17 => [58]
    case 18 => [59]
    case 19 => [51]
    case 20 => [50]
    case 21 => [49]
    case 22 => [57]
    case 23 => [48, 56]
    case 24 => [48]
    case 25 => [40, 47]
    case 26 => [40]
    case 27 => [41]
    case 28 => [32, 33, 42]
    case 29 => [32, 33]
    case 30 => [32]
    case 31 => [31]
    case 32 => [39]
    case 33 => [38]
    case 34 => [30, 37, 46]
    case 35 => [30, 37]
    case 36 => [30]
    case 37 => [29]
    case 38 => [21, 28]
    case 39 => [21]
    case 40 => [22]
    case 41 => [23]
    case 42 => [15, 24]
    case 43 => [15]
    case _ => [START]
  }

  /** The cell turn t opens. */
  function Path(t: nat): Cell { Top(t)[|Top(t)| - 1] }

  /** The turn that opens a cell. */
  function When(c: Cell): nat
  {
    if c < 27 then WhenHigh(c) else if c < 54 then WhenMiddle(c) else WhenLow(c)
  }

  function WhenHigh(c: Cell): nat
  {
    match c
    case 15 => 43
    case 21 => 39
    case 22 => 40
    case 23 => 41
    case 24 => 42
    case _ => TURNS
  }

  function WhenMiddle(c: Cell): nat
  {
    match c
    case 28 => 38
    case 29 => 37
    case 30 => 36
    case 31 => 31
    case 32 => 30
    case 33 => 29
    case 37 => 35
    case 38 => 33
    case 39 => 32
    case 40 => 26
    case 41 => 27
    case 42 => 28
    case 46 => 34
    case 47 => 25
    case 48 => 24
    case 49 => 21
    case 50 => 20
    case 51 => 19
    case 52 => 6
    case 53 => 5
    case _ => TURNS
  }

  function WhenLow(c: Cell): nat
  {
    match c
    case 56 => 23
    case 57 => 22
    case 58 => 17
    case 59 => 18
    case 60 => 7
    case 61 => 0
    case 62 => 4
    case 65 => 16
    case 66 => 15
    case 67 => 14
    case 68 => 8
    case 69 => 3
    case 70 => 2
    case 71 => 1
    case 74 => 13
    case 75 => 12
    case 76 => 11
    case 77 => 10
    case 78 => 9
    case _ => TURNS
  }

  /** What turn t offers to the stack. */
  function Offers(t: nat): seq<Cell>
  {
    match t
    case 0 => [51, 52, 53] + [60, 62] + [69, 70, 71]
    case 4 => [52, 53] + [] + []
    case 5 => [43, 44] + [52] + []
    case 6 => [42, 43, 44] + [51] + [60]
    case 7 => [50, 51] + [59] + [68]
    case 8 => [58, 59] + [67] + [76, 77, 78]
    case 10 => [67] + [76] + []
    case 11 => [66, 67] + [75] + []
    case 12 => [65, 66, 67] + [74] + []
    case 14 => [57, 58, 59] + [66] + []
    case 15 => [56, 57, 58] + [65] + []
    case 17 => [48, 49, 50] + [57, 59] + []
    case 18 => [49, 50, 51] + [] + []
    case 19 => [41, 42, 43] + [50] + []
    case 20 => [40, 41, 42] + [49] + []
    case 21 => [39, 40, 41] + [48] + [57]
    case 22 => [47, 48] + [56] + []
    case 24 => [38, 39, 40] + [47] + []
    case 26 => [30, 31, 32] + [39, 41] + []
    case 27 => [31, 32, 33] + [42] + []
    case 30 => [22, 23, 24] + [31] + []
    case 31 => [21, 22, 23] + [30] + [39]
    case 32 => [29, 30] + [38] + []
    case 33 => [28, 29, 30] + [37] + [46]
    case 36 => [20, 21, 22] + [29] + []
    case 37 => [19, 20, 21] + [28] + []
    case 39 => [11, 12, 13] + [20, 22] + []
    case 40 => [12, 13, 14] + [23] + []
    case 41 => [13, 14, 15] + [24] + []
    case 43 => [5, 6, 7] + [14, 16] + [25]
    case _ => []
  }

  /** The height of the stack before turn t. */
  function Height(t: nat): nat
  {
    match t
    case 0 => 1
    case 1 => 8
    case 2 => 7
    case 3 => 6
    case 4 => 5
    case 5 => 6
    case 6 => 8
    case 7 => 12
    case 8 => 15
    case 9 => 20
    case 10 => 19
    case 11 => 20
    case 12 => 22
    case 13 => 25
    case 14 => 24
    case 15 => 27
    case 16 => 30
    case 17 => 29
    case 18 => 33
    case 19 => 35
    case 20 => 38
    case 21 => 41
    case 22 => 45
    case 23 => 47
    case 24 => 46
    case 25 => 49
    case 26 => 48
    case 27 => 52
    case 28 => 55
    case 29 => 54
    case 30 => 53
    case 31 => 56
    case 32 => 60
    case 33 => 62
    case 34 => 66
    case 35 => 65
    case 36 => 64
    case 37 => 67
    case 38 => 70
    case 39 => 69
    case 40 => 73
    case 41 => 76
    case 42 => 79
    case 43 => 78
    case _ => 81
  }

  function OpenBefore(t: nat): set<Cell> { set c: Cell | 0 <= c < CELLS && When(c) < t }

  /** The place of the scan at that row and column offers its cell before turn t. */
  predicate Closed(t: nat, r: int, c: int) { OnBoard(r, c) && t <= When(r * N + c) }

  /** Which of three cells in a row are offered. */
  function Picked(x: int, a: bool, b: bool, c: bool): seq<int>
  {
    if a then if b then if c then [x - 1, x, x + 1] else [x - 1, x] else if c then [x - 1, x + 1] else [x - 1]
    else if b then if c then [x, x + 1] else [x] else if c then [x + 1] else []
  }

  function Three(t: nat, r: int, c: int): seq<int>
  {
    Picked(r * N + c, Closed(t, r, c - 1), Closed(t, r, c), Closed(t, r, c + 1))
  }

  /** The nine places around a cell. */
  function Nine(t: nat, r: int, c: int): seq<int> { Three(t, r - 1, c) + Three(t, r, c) + Three(t, r + 1, c) }

  /** How many of the offered cells turn t has room for. */
  function RoomFor(t: nat): nat
    requires 0 < Height(t) <= CELLS
  {
    var room := CELLS - (Height(t) - 1);
    if |Offers(t)| <= room then |Offers(t)| else room
  }

  predicate Safe(r: int, c: int) { OnBoard(r, c) ==> !Mined(r * N + c) }

  predicate SafeLine(r: int, c: int) { Safe(r, c - 1) && Safe(r, c) && Safe(r, c + 1) }

  /** No mine in the square around row r, column c. */
  predicate Free(r: int, c: int) { SafeLine(r - 1, c) && SafeLine(r, c) && SafeLine(r + 1, c) }

  /** Turn t opens the cell at row r, column c. */
  predicate Opens(t: nat, r: nat, c: nat)
  {
    r < N && c < N && Path(t) == r * N + c && When(r * N + c) == t && !Mined(r * N + c)
  }

  /** That cell has no mine around it, and turn t offers what the table says. */
  predicate Spreads(t: nat, r: nat, c: nat) { Free(r, c) && Nine(t + 1, r, c) == Offers(t) }

  /** Or it has one, and turn t offers nothing. */
  predicate Numbered(t: nat, r: nat, c: nat) { !Free(r, c) && Offers(t) == [] }

  predicate Row(t: nat, r: nat, c: nat)
  {
    Opens(t, r, c) && (Spreads(t, r, c) || Numbered(t, r, c))
  }

  predicate EndsWith(s: seq<Cell>, t: seq<Cell>)
  {
    |t| <= |s| && forall i :: 0 <= i < |t| ==> s[|s| - |t| + i] == t[i]
  }

  /** What turn t leaves at the top of the stack is the top before the next turn, and the lost cell is not pushed. */
  predicate Linked(t: nat)
  {
    && |Top(t)| <= Height(t) <= CELLS && Height(t + 1) == Height(t) - 1 + RoomFor(t)
    && (t + 1 < TURNS ==>
          EndsWith(if Offers(t) == [] then Top(t)[..|Top(t)| - 1] else Offers(t)[..RoomFor(t)], Top(t + 1)))
    && LOST !in Offers(t)[..RoomFor(t)]
  }
}
