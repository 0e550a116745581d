/** In the very first game a reveal at row 7, column 8 loses a cell: the fill's stack fills up. */
module FloodWitness {
  import opened MineField
  import opened FloodTurns
  import opened FirstBoard
  import opened FloodTable
  import opened FloodRows
  import opened MineDraw
  import F = Flood
  import R = MineRules
  import Minesweeper

  lemma OfferNext(open: set<Cell>, r: int, c: int, k: nat, dy: int, dx: int)
    requires -1 <= dy <= 1 && -1 <= dx <= 1 && k == (dy + 1) * 3 + (dx + 1)
    ensures Offered(open, {}, r, c, k + 1) == Offered(open, {}, r, c, k) + Offer(open, {}, r + dy, c + dx)
  {
    PlaceOf(k, dy, dx);
  }

  lemma ThreeSteps(open: set<Cell>, r: int, c: int, k: nat, dy: int, x: seq<Cell>, y: seq<Cell>, z: seq<Cell>)
    requires k == (dy + 1) * 3 && -1 <= dy <= 1 && x == Offer(open, {}, r + dy, c - 1)
    requires y == Offer(open, {}, r + dy, c) && z == Offer(open, {}, r + dy, c + 1)
    ensures Offered(open, {}, r, c, k + 3) == Offered(open, {}, r, c, k) + (x + y + z)
  {
    OfferNext(open, r, c, k, dy, -1);
    OfferNext(open, r, c, k + 1, dy, 0);
    OfferNext(open, r, c, k + 2, dy, 1);
    OneByOne(Offered(open, {}, r, c, k), x, y, z, Offered(open, {}, r, c, k + 1), Offered(open, {}, r, c, k + 2),
             Offered(open, {}, r, c, k + 3));
  }

  lemma ThreeMore(t: nat, r: int, c: int, k: nat, dy: int)
    requires k == (dy + 1) * 3 && -1 <= dy <= 1
    ensures Offered(OpenBefore(t), {}, r, c, k + 3) == Offered(OpenBefore(t), {}, r, c, k) + Three(t, r + dy, c)
  {
    var open, row := OpenBefore(t), r + dy;
    var x, y, z := Offer(open, {}, row, c - 1), Offer(open, {}, row, c), Offer(open, {}, row, c + 1);
    ThreeSteps(open, r, c, k, dy, x, y, z);
    ThreeOffers(t, row, c, x, y, z);
  }

  lemma OneByOne(s: seq<int>, x: seq<int>, y: seq<int>, z: seq<int>, p: seq<int>, q: seq<int>, u: seq<int>)
    requires p == s + x && q == p + y && u == q + z
    ensures u == s + (x + y + z)
  {
  }

  lemma ThreeOffers(t: nat, r: int, c: int, x: seq<Cell>, y: seq<Cell>, z: seq<Cell>)
    requires x == Offer(OpenBefore(t), {}, r, c - 1) && y == Offer(OpenBefore(t), {}, r, c) &&
             z == Offer(OpenBefore(t), {}, r, c + 1)
    ensures Three(t, r, c) == x + y + z
  {
    OfferClosed(t, r, c - 1);
    OfferClosed(t, r, c);
    OfferClosed(t, r, c + 1);
    Concatenated(r * N + c, x, y, z, Closed(t, r, c - 1), Closed(t, r, c), Closed(t, r, c + 1));
  }

  lemma OfferClosed(t: nat, r: int, c: int)
    ensures Offer(OpenBefore(t), {}, r, c) == if Closed(t, r, c) then [r * N + c] else []
  {
  }

  lemma Concatenated(n: int, x: seq<int>, y: seq<int>, z: seq<int>, a: bool, b: bool, c: bool)
    requires x == (if a then [n - 1] else []) && y == (if b then [n] else []) && z == (if c then [n + 1] else [])
    ensures Picked(n, a, b, c) == x + y + z
  {
  }

  lemma NineFrom(t: nat, r: int, c: int, k: nat)
    requires k == 0
    ensures Offered(OpenBefore(t), {}, r, c, k + PLACES) == Nine(t, r, c)
  {
    var open := OpenBefore(t);
    ThreeMore(t, r, c, k, -1);
    ThreeMore(t, r, c, k + 3, 0);
    ThreeMore(t, r, c, k + 6, 1);
    Joined(Offered(open, {}, r, c, k), Offered(open, {}, r, c, k + 3), Offered(open, {}, r, c, k + 6),
           Offered(open, {}, r, c, k + 9), Three(t, r + -1, c), Three(t, r + 0, c), Three(t, r + 1, c));
  }

  lemma Joined(p: seq<int>, q: seq<int>, s: seq<int>, u: seq<int>, a: seq<int>, b: seq<int>, d: seq<int>)
    requires p == [] && q == p + a && s == q + b && u == s + d
    ensures u == a + b + d
  {
  }

  lemma NineIs(t: nat, r: int, c: int)
    ensures Offered(OpenBefore(t), {}, r, c, PLACES) == Nine(t, r, c)
  {
    var k: nat :| k == 0;
    NineFrom(t, r, c, k);
  }

  lemma SafeBeside(cur: Cell, dy: int, dx: int)
    requires -1 <= dy <= 1 && -1 <= dx <= 1 && Zero(Board(), cur) && !Mined(cur)
    ensures Safe(cur / N + dy, cur % N + dx)
  {
    if OnBoard(cur / N + dy, cur % N + dx) {
      CellAt(cur, dy, dx);
      var e: Cell := (cur / N + dy) * N + (cur % N + dx);
      MinedIs(e);
      assert e == cur || e in Around(cur);
    }
  }

  lemma LineBeside(cur: Cell, dy: int)
    requires -1 <= dy <= 1 && Zero(Board(), cur) && !Mined(cur)
    ensures SafeLine(cur / N + dy, cur % N)
  {
    SafeBeside(cur, dy, -1);
    SafeBeside(cur, dy, 0);
    SafeBeside(cur, dy, 1);
  }

  lemma FreeIsZero(r: nat, c: nat, cur: Cell)
    requires cur / N == r && cur % N == c && !Mined(cur)
    ensures Free(r, c) <==> Zero(Board(), cur)
  {
    if Free(r, c) {
      NoMineAround(r, c, cur);
    }
    if Zero(Board(), cur) {
      NoneAround(r, c, cur);
    }
  }

  lemma NoMineAround(r: nat, c: nat, cur: Cell)
    requires Free(r, c) && cur / N == r && cur % N == c
    ensures Zero(Board(), cur)
  {
    forall d | d in Around(cur)
      ensures d !in Board()
    {
      MinedIs(d);
      assert d == d / N * N + d % N;
      assert d / N == r - 1 || d / N == r || d / N == r + 1;
      assert d % N == c - 1 || d % N == c || d % N == c + 1;
    }
  }

  lemma NoneAround(r: nat, c: nat, cur: Cell)
    requires Zero(Board(), cur) && cur / N == r && cur % N == c && !Mined(cur)
    ensures Free(r, c)
  {
    LineBeside(cur, -1);
    LineBeside(cur, 0);
    LineBeside(cur, 1);
  }

  lemma RowOf(r: nat, c: nat)
    requires r < N && c < N
    ensures (r * N + c) / N == r && (r * N + c) % N == c
  {
  }

  lemma OnePlace(t: nat, c: Cell)
    requires t < TURNS && When(c) == t
    ensures Path(t) == c
  {
  }

  lemma OpensNext(t: nat, cur: Cell)
    requires t < TURNS && When(cur) == t
    ensures cur !in OpenBefore(t) && OpenBefore(t) + {cur} == OpenBefore(t + 1)
  {
    forall d: Cell
      ensures d in OpenBefore(t + 1) <==> d in OpenBefore(t) || d == cur
    {
      if When(d) == t {
        OnePlace(t, d);
        OnePlace(t, cur);
      }
    }
  }

  /** What a turn does with a closed cell. */
  lemma TurnStep(f: Fill, cur: Cell, offers: seq<Cell>, taken: nat)
    requires 0 < |f.stack| <= CELLS && f.stack[|f.stack| - 1] == cur && cur !in f.open && taken <= |offers|
    requires offers == if Zero(Board(), cur) then Offered(f.open + {cur}, {}, cur / N, cur % N, PLACES) else []
    requires taken == |offers| <= CELLS - (|f.stack| - 1) || taken == CELLS - (|f.stack| - 1)
    ensures Turn(Board(), {}, f) == Fill(f.open + {cur}, f.stack[..|f.stack| - 1] + offers[..taken])
  {
  }

  function After(n: nat): (f: Fill)
    ensures |f.stack| <= CELLS
  {
    Turns(Board(), {}, Fill({}, [START]), n)
  }

  /** Before turn t the fill is as the tables say, and its stack does not hold the lost cell. */
  predicate Shown(t: nat, f: Fill)
  {
    f.open == OpenBefore(t) && |f.stack| == Height(t) && LOST !in f.stack && (t < TURNS ==> EndsWith(f.stack, Top(t)))
  }

  lemma TopStays(stack: seq<Cell>, top: seq<Cell>, next: seq<Cell>)
    requires top != [] && EndsWith(stack, top) && EndsWith(top[..|top| - 1], next)
    ensures EndsWith(stack[..|stack| - 1], next)
  {
  }

  lemma TopPushed(rest: seq<Cell>, pushed: seq<Cell>, next: seq<Cell>)
    requires EndsWith(pushed, next)
    ensures EndsWith(rest + pushed, next)
  {
  }

  lemma TopNext(t: nat, stack: seq<Cell>, top: seq<Cell>, offers: seq<Cell>, taken: nat, next: seq<Cell>)
    requires top != [] && EndsWith(stack, top) && taken <= |offers|
    requires EndsWith(if offers == [] then top[..|top| - 1] else offers[..taken], next)
    ensures EndsWith(stack[..|stack| - 1] + offers[..taken], next)
  {
    if offers == [] {
      TopStays(stack, top, next);
      assert stack[..|stack| - 1] + offers[..taken] == stack[..|stack| - 1];
    } else {
      TopPushed(stack[..|stack| - 1], offers[..taken], next);
    }
  }

  lemma ShownNext(t: nat, f: Fill, g: Fill, offers: seq<Cell>, taken: nat)
    requires t < TURNS && Linked(t) && Shown(t, f) && offers == Offers(t) && taken == RoomFor(t)
    requires g == Fill(OpenBefore(t + 1), f.stack[..|f.stack| - 1] + offers[..taken])
    ensures Shown(t + 1, g)
  {
    if t + 1 < TURNS {
      TopNext(t, f.stack, Top(t), offers, taken, Top(t + 1));
    }
  }

  lemma {:induction false} FirstTurns(t: nat)
    requires t <= TURNS
    ensures Shown(t, After(t))
  {
    if t == 0 {
      FirstShown(t, After(t));
    } else {
      FirstTurns(t - 1);
      var f, g := After(t - 1), After(t);
      assert g == Turn(Board(), {}, f);
      OneTurn(t - 1, f, g);
    }
  }

  lemma FirstShown(t: nat, f: Fill)
    requires t == 0 && f == Fill({}, [START])
    ensures Shown(t, f)
  {
    assert OpenBefore(t) == {};
  }

  lemma OneTurn(t: nat, f: Fill, g: Fill)
    requires t < TURNS && Shown(t, f) && |f.stack| <= CELLS && g == Turn(Board(), {}, f)
    ensures Shown(t + 1, g)
  {
    var r, c := AllRows(t);
    RowMeans(t, r, c, r * N + c);
    AllLinked(t);
    TurnRow(t, r * N + c, f, g, Offers(t), RoomFor(t));
  }

  lemma TurnRow(t: nat, cur: Cell, f: Fill, g: Fill, offers: seq<Cell>, taken: nat)
    requires t < TURNS && Linked(t) && Shown(t, f) && |f.stack| <= CELLS && g == Turn(Board(), {}, f)
    requires When(cur) == t && Path(t) == cur && offers == Offers(t) && taken == RoomFor(t)
    requires offers == if Zero(Board(), cur) then Offered(OpenBefore(t + 1), {}, cur / N, cur % N, PLACES) else []
    ensures Shown(t + 1, g)
  {
    OneRow(t, cur, f, offers, taken);
    ShownNext(t, f, g, offers, taken);
  }

  lemma RowMeans(t: nat, r: nat, c: nat, cur: Cell)
    requires Row(t, r, c) && cur == r * N + c
    ensures When(cur) == t && Path(t) == cur && cur / N == r && cur % N == c
    ensures Offers(t) == if Zero(Board(), cur) then Offered(OpenBefore(t + 1), {}, r, c, PLACES) else []
  {
    RowOf(r, c);
    FreeIsZero(r, c, cur);
    NineIs(t + 1, r, c);
  }

  lemma OneRow(t: nat, cur: Cell, f: Fill, offers: seq<Cell>, taken: nat)
    requires t < TURNS && Shown(t, f) && |f.stack| <= CELLS && When(cur) == t && Path(t) == cur
    requires offers == if Zero(Board(), cur) then Offered(OpenBefore(t + 1), {}, cur / N, cur % N, PLACES) else []
    requires taken == if |offers| <= CELLS - (|f.stack| - 1) then |offers| else CELLS - (|f.stack| - 1)
    ensures Turn(Board(), {}, f) == Fill(OpenBefore(t + 1), f.stack[..|f.stack| - 1] + offers[..taken])
  {
    OpensNext(t, cur);
    TopIs(f.stack, Top(t));
    TurnStep(f, cur, offers, taken);
  }

  lemma TopIs(stack: seq<Cell>, top: seq<Cell>)
    requires top != [] && EndsWith(stack, top)
    ensures stack != [] && stack[|stack| - 1] == top[|top| - 1]
  {
  }

  // ------------------------------------------------ after that the lost cell cannot be reached

  const GATE: Cell := 15

  /** The only way to the lost cell is through one that is open already. */
  predicate Barred(f: Fill)
  {
    LOST !in f.open && LOST !in f.stack && GATE in f.open
  }

  lemma OnlyWay(c: Cell)
    requires Near(c, LOST) && c != LOST && c != GATE
    ensures !Zero(Board(), c)
  {
    var mine: Cell := if c == 34 then 35 else if c == 16 || c == 17 then 8 else 34;
    MinedIs(mine);
    assert mine in Around(c);
  }

  lemma TurnKeepsBarred(f: Fill)
    requires |f.stack| <= CELLS && Barred(f)
    ensures Barred(Turn(Board(), {}, f))
  {
    if f.stack != [] {
      var cur, rest := f.stack[|f.stack| - 1], f.stack[..|f.stack| - 1];
      if cur !in f.open && Zero(Board(), cur) {
        OfferedExactly(f.open + {cur}, {}, cur, PLACES, LOST);
        if Near(cur, LOST) {
          OnlyWay(cur);
        }
      }
    }
  }

  lemma BarredAtLast(f: Fill)
    requires Shown(TURNS, f)
    ensures Barred(f)
  {
    assert When(GATE) == 43 && When(LOST) == TURNS;
  }

  lemma {:induction false} LaterTurns(n: nat)
    requires TURNS <= n
    ensures Barred(After(n))
  {
    if n == TURNS {
      FirstTurns(TURNS);
      BarredAtLast(After(TURNS));
    } else {
      LaterTurns(n - 1);
      TurnKeepsBarred(After(n - 1));
    }
  }

  lemma HalfWay(s: F.Scene)
    requires s == F.Scene(Board(), {}, {}, START)
    ensures 31 in F.Closure(s)
  {
    F.StartReached(s);
    WayOn(s, 6, 7, START, 51);
    WayOn(s, 5, 6, 51, 41);
    WayOn(s, 4, 5, 41, 31);
  }

  lemma LostIsReached()
    ensures LOST in F.Closure(F.Scene(Board(), {}, {}, START))
  {
    var s := F.Scene(Board(), {}, {}, START);
    HalfWay(s);
    WayOn(s, 3, 4, 31, 23);
    WayOn(s, 2, 5, 23, GATE);
    WayOn(s, 1, 6, GATE, LOST);
  }

  lemma WayOn(s: F.Scene, row: nat, col: nat, c: Cell, d: Cell)
    requires s == F.Scene(Board(), {}, {}, START) && Near(c, d) && c in F.Closure(s)
    requires c / N == row && c % N == col && Free(row, col)
    ensures d in F.Closure(s)
  {
    RowOf(row, col);
    FreeIsZero(row, col, c);
    F.NextReached(s, c, d);
  }

  /** On this board a fill from the start ends with a cell of the closure still closed: the guard on the stack
      refuses it, and it is never offered again. */
  lemma FillFallsShort(n: nat)
    requires After(n).stack == []
    ensures LOST in F.Closure(F.Scene(Board(), {}, {}, START)) && LOST !in After(n).open
  {
    if n < TURNS {
      FirstTurns(n);
      assert false;
    } else {
      LaterTurns(n);
    }
    LostIsReached();
  }

  /** The app is loaded, and 7, 8, MENU are pressed: that game goes on with the lost cell closed, beside an open cell
      no mine is near. */
  lemma FirstGameLosesCell(views: seq<R.View>)
    requires R.Game(views, [R.Digit(7), R.Digit(8), R.Menu]) && views[0].seed == SEED
    ensures var v := views[3];
            && v.state == R.PLAYING && v.mines == Board() && v.flags == {} && v.cursor == START
            && LOST in F.Closure(F.Scene(v.mines, {}, {}, START)) && LOST !in v.open
            && GATE in v.open && Near(GATE, LOST) && Zero(v.mines, GATE)
  {
    FirstKeys(views);
    FirstReveal(views[2], views[3]);
  }

  /** The app itself, just loaded. */
  method FirstGame() returns (g: Minesweeper.Game)
    ensures g.Shape() && g.Mines() == Board() && g.Flags() == {} && g.state == R.PLAYING
    ensures LOST in F.Closure(F.Scene(g.Mines(), {}, {}, START)) && LOST !in g.Opened()
  {
    g := new Minesweeper.Game();
    var keys := [R.Digit(7), R.Digit(8), R.Menu];
    ghost var views;
    var handled;
    views, handled := g.AppMain(keys);
    assert handled == 3 && keys[..3] == keys;
    FirstGameLosesCell(views);
  }

  lemma FirstKeys(views: seq<R.View>)
    requires R.Game(views, [R.Digit(7), R.Digit(8), R.Menu]) && views[0].seed == SEED
    ensures views[2] == R.Fresh(SEED).(cursor := START, rowPick := 7) && R.Uncovers(views[2], views[3])
  {
    var keys := [R.Digit(7), R.Digit(8), R.Menu];
    assert R.Next(views[0], keys[0], views[1]);
    assert R.Next(views[1], keys[1], views[2]);
    assert R.Next(views[2], keys[2], views[3]);
  }

  lemma FirstReveal(v: R.View, w: R.View)
    requires v == R.Fresh(SEED).(cursor := START, rowPick := 7) && R.Uncovers(v, w)
    ensures w.state == R.PLAYING && w.mines == Board() && w.flags == {} && w.cursor == START
    ensures LOST in F.Closure(F.Scene(w.mines, {}, {}, START)) && LOST !in w.open
    ensures GATE in w.open && Near(GATE, LOST) && Zero(w.mines, GATE)
  {
    BoardIsDrawn();
    OneBoard(SEED, START, Deal(w.mines, w.seed), Deal(Board(), SeedAfter(MINES)));
    LastIsFree();
    FillLosesCell(w.open);
  }

  lemma LastIsFree()
    ensures START !in Board() && LOST in AllCells() - Board() && Near(GATE, LOST) && Zero(Board(), GATE)
  {
    FreeIsZero(1, 6, GATE);
    MinedIs(START);
    MinedIs(LOST);
    assert Within(LOST, 0, CELLS);
  }

  lemma FillLosesCell(open: set<Cell>)
    requires Fills(Board(), {}, {}, START, open)
    ensures LOST in F.Closure(F.Scene(Board(), {}, {}, START)) && LOST !in open && GATE in open
  {
    var n: nat :| Turns(Board(), {}, Fill({}, [START]), n) == Fill(open, []);
    FillFallsShort(n);
    GateOpened(n);
  }

  lemma GateOpened(n: nat)
    requires After(n).stack == []
    ensures GATE in After(n).open
  {
    if n < TURNS {
      FirstTurns(n);
      assert false;
    } else {
      LaterTurns(n);
    }
  }
}
