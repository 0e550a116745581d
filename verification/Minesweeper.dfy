/** The Minesweeper app: three bit arrays, a cursor, a seed, and the loop over keys. */
module Minesweeper {
  import opened Bits
  import opened MineField
  import opened MineDraw
  import F = Flood
  import T = FloodTurns
  import L = Lcg
  import opened MineRules

  class Game {
    const mine: array<Byte>
    const open: array<Byte>
    const flag: array<Byte>
    const stack: array<Cell>
    var cursor: Cell
    var pending: bool
    var rowPick: nat
    var placed: bool
    var state: nat
    var mineLeft: int
    var seed: nat

    ghost predicate Shape()
    {
      && mine.Length == open.Length == flag.Length == BYTES && stack.Length == CELLS
      && mine != open && mine != flag && open != flag
      && stack as object != mine && stack as object != open && stack as object != flag
    }

    ghost function Mines(): set<Cell>
      requires Shape()
      reads mine
    { Cells(mine[..]) }

    ghost function Opened(): set<Cell>
      requires Shape()
      reads open
    { Cells(open[..]) }

    ghost function Flags(): set<Cell>
      requires Shape()
      reads flag
    { Cells(flag[..]) }

    ghost function View(): MineRules.View
      requires Shape()
      reads this, mine, open, flag
    {
      MineRules.View(Mines(), Opened(), Flags(), cursor, pending, rowPick, placed, state, mineLeft, seed)
    }

    ghost predicate Valid()
      reads this, mine, open, flag
    {
      Shape() && seed < WORD32 && Good(View())
    }

    constructor ()
      ensures Valid() && fresh(mine) && fresh(open) && fresh(flag) && fresh(stack) && View() == Fresh(1)
    {
      mine := new Byte[BYTES](i => 0);
      open := new Byte[BYTES](i => 0);
      flag := new Byte[BYTES](i => 0);
      stack := new Cell[CELLS](i => 0);
      cursor, pending, rowPick, placed, state, mineLeft, seed := 40, false, 0, false, PLAYING, MINES, 1;
      new;
      NoCells(mine[..]);
      NoCells(open[..]);
      NoCells(flag[..]);
    }

    method SetBit(bits: array<Byte>, c: Cell, on: bool)
      requires bits.Length == BYTES
      modifies bits
      ensures Cells(bits[..]) == if on then old(Cells(bits[..])) + {c} else old(Cells(bits[..])) - {c}
    {
      SetBitCells(bits[..], c, on);
      bits[c / 8] := SetByte(bits[c / 8], c % 8, on);
    }

    method TestBit(bits: array<Byte>, c: Cell) returns (on: bool)
      requires bits.Length == BYTES
      ensures on == (c in Cells(bits[..]))
    {
      assert bits[..][c / 8] == bits[c / 8];
      on := Bit(bits[c / 8], c % 8);
    }

    method ClearAll(bits: array<Byte>)
      requires bits.Length == BYTES
      modifies bits
      ensures Cells(bits[..]) == {}
    {
      for i := 0 to BYTES
        invariant forall j :: 0 <= j < i ==> bits[j] == 0
      {
        bits[i] := 0;
      }
      NoCells(bits[..]);
    }

    /** Whether a mine lies so many rows and columns from a cell, on the board. */
    method MineBeside(c: Cell, dy: int, dx: int) returns (on: bool)
      requires Shape() && -1 <= dy <= 1 && -1 <= dx <= 1
      ensures on == Hit(Mines(), c, dy, dx)
    {
      var row, col := c / N + dy, c % N + dx;
      if (dx == 0 && dy == 0) || row < 0 || row >= N || col < 0 || col >= N {
        return false;
      }
      on := TestBit(mine, row * N + col);
    }

    /** neighbours: how many mines lie around a cell. */
    method Neighbours(c: Cell) returns (count: nat)
      requires Shape()
      ensures count == |Around(c) * Mines()|
    {
      ScanAll(Mines(), c);
      count := 0;
      ghost var k: nat := 0;
      for dy := -1 to 2
        invariant k == (dy + 1) * 3 && count == |Scanned(Mines(), c, k)|
      {
        for dx := -1 to 2
          invariant k == (dy + 1) * 3 + (dx + 1) && count == |Scanned(Mines(), c, k)|
        {
          ScanNext(Mines(), c, dy, dx, k);
          k := k + 1;
          var on := MineBeside(c, dy, dx);
          if on {
            count := count + 1;
          }
        }
      }
    }

    /** One try: draw a cell, and mine it unless it is mined or in the square around the first one. The promised try
        is reached, or comes nearer. */
    method Draw(safe: Cell, ghost first: nat, ghost tries: nat, ghost n: nat) returns (added: bool, ghost m: nat)
      requires Shape() && seed < WORD32 && |Mines()| < MINES && Promised(Mines(), safe, seed, n)
      requires Tries(first, safe, tries) == Deal(Mines(), seed)
      modifies mine, `seed
      ensures seed < WORD32 && |Mines()| == old(|Mines()|) + if added then 1 else 0
      ensures Tries(first, safe, tries + 1) == Deal(Mines(), seed)
      ensures |Mines()| < MINES ==> Promised(Mines(), safe, seed, m) && (added || m < n)
      ensures |Mines()| == MINES ==> LastTry(first, safe, tries + 1)
    {
      TryOn(first, safe, tries, Mines(), seed, n);
      seed := L.Next(seed);
      added, m := false, n - 1;
      var cell := Drawn(seed);
      var taken := TestBit(mine, cell);
      if taken {
        return;
      }
      var row, col, srow, scol := cell / N, cell % N, safe / N, safe % N;
      if srow - 1 <= row <= srow + 1 && scol - 1 <= col <= scol + 1 {
        return;
      }
      SetBit(mine, cell, true);
      added := true;
      if |Mines()| < MINES {
        m := SomePromise(Mines(), safe, seed);
      }
    }

    /** place_mines: rejection sampling that ends for every seed and every first cell, with exactly
        ten mines, none in the square around that cell. */
    method PlaceMines(safe: Cell)
      requires Shape() && seed < WORD32
      modifies mine, `seed, `placed
      ensures placed && seed < WORD32 && |Mines()| == MINES
      ensures forall c :: c in Mines() ==> !Near(safe, c)
      ensures Lays(old(seed), safe, Mines(), seed)
    {
      var want: nat := MINES;
      ClearAll(mine);
      ghost var first, tries: nat := seed, 0;
      seed := (seed + safe * 2654435761 + 1) % WORD32;
      ghost var n := SomePromise({}, safe, seed);
      while want > 0
        invariant seed < WORD32 && |Mines()| + want == MINES
        invariant want > 0 ==> Promised(Mines(), safe, seed, n)
        invariant Tries(first, safe, tries) == Deal(Mines(), seed)
        invariant want == 0 ==> LastTry(first, safe, tries)
        decreases want, n
      {
        var added;
        added, n := Draw(safe, first, tries, n);
        tries := tries + 1;
        if added {
          want := want - 1;
        }
      }
      placed := true;
      LastLays(first, safe, tries, Mines(), seed);
    }

    // ---------------------------------------------- the flood fill

    /** Pushes the closed, unflagged neighbours of a cell, as far as the stack has room. */
    method PushNeighbours(cur: Cell, top0: nat, ghost openSet: set<Cell>, ghost flags: set<Cell>) returns (top: nat)
      requires Shape() && top0 <= CELLS && openSet == Opened() && flags == Flags()
      modifies stack
      ensures top <= CELLS && T.Scanned(openSet, flags, cur / N, cur % N, old(stack[..top0]), T.PLACES, stack[..top])
    {
      top := top0;
      ghost var before, k: nat := stack[..top0], 0;
      ghost var now := before;
      for dy := -1 to 2
        invariant k == (dy + 1) * 3 && top <= CELLS && openSet == Opened() && flags == Flags()
        invariant now == stack[..top] && T.Scanned(openSet, flags, cur / N, cur % N, before, k, now)
      {
        for dx := -1 to 2
          invariant k == (dy + 1) * 3 + (dx + 1) && top <= CELLS && openSet == Opened() && flags == Flags()
          invariant now == stack[..top] && T.Scanned(openSet, flags, cur / N, cur % N, before, k, now)
        {
          top := PushOne(cur, dy, dx, top, k, before, openSet, flags);
          k, now := k + 1, stack[..top];
        }
      }
    }

    /** One place of the scan. */
    method PushOne(cur: Cell, dy: int, dx: int, top0: nat, ghost k: nat, ghost before: seq<Cell>,
                   ghost openSet: set<Cell>, ghost flags: set<Cell>) returns (top: nat)
      requires Shape() && -1 <= dy <= 1 && -1 <= dx <= 1 && k == (dy + 1) * 3 + (dx + 1)
      requires top0 <= CELLS && openSet == Opened() && flags == Flags()
      requires T.Scanned(openSet, flags, cur / N, cur % N, before, k, stack[..top0])
      modifies stack
      ensures top <= CELLS && T.Scanned(openSet, flags, cur / N, cur % N, before, k + 1, stack[..top])
    {
      ghost var now := stack[..top0];
      var r, c := cur / N + dy, cur % N + dx;
      top := PushCell(r, c, top0, openSet, flags);
      T.PlaceOf(k, dy, dx);
      T.ScanOneMore(openSet, flags, cur / N, cur % N, before, k, r, c, now, stack[..top]);
    }

    method PushCell(r: int, c: int, top0: nat, ghost openSet: set<Cell>, ghost flags: set<Cell>) returns (top: nat)
      requires Shape() && top0 <= CELLS && openSet == Opened() && flags == Flags()
      modifies stack
      ensures top <= CELLS && T.Took(T.Offer(openSet, flags, r, c), old(stack[..top0]), stack[..top])
    {
      top := top0;
      if r < 0 || r >= N || c < 0 || c >= N {
        return;
      }
      var next: Cell := r * N + c;
      var isOpen := TestBit(open, next);
      var flagged := TestBit(flag, next);
      if !isOpen && !flagged && top < CELLS {
        stack[top] := next;
        top := top + 1;
      }
    }

    /** Opens a closed cell and, if no mine is around it, pushes its neighbours. */
    method OpenCell(cur: Cell, top0: nat) returns (top: nat)
      requires Shape() && top0 <= CELLS
      modifies open, stack
      ensures top <= CELLS
      ensures T.Fill(Opened(), stack[..top]) == T.Opening(Mines(), Flags(), old(Opened()), old(stack[..top0]), cur)
    {
      SetBit(open, cur, true);
      var count := Neighbours(cur);
      top := top0;
      CountZero(Mines(), cur);
      if count == 0 {
        top := PushNeighbours(cur, top, Opened(), Flags());
        T.ScannedIs(Opened(), Flags(), cur / N, cur % N, old(stack[..top0]), T.PLACES, stack[..top]);
      }
    }

    /** reveal: the flood fill. It ends after some number of turns, in which the full stack refused certain cells;
        it stays inside the closure, and is all of it exactly if those cells were opened some other way. */
    method Reveal(cell: Cell) returns (ghost refused: set<Cell>, ghost turns: nat)
      requires Shape()
      modifies open, stack
      ensures var start := T.Fill(old(Opened()), [cell]);
              && T.Fill(Opened(), []) == T.Turns(Mines(), Flags(), start, turns)
              && refused == T.RefusedIn(Mines(), Flags(), start, turns)
      ensures var s := F.Scene(Mines(), Flags(), old(Opened()), cell);
              && s.open <= Opened() <= s.open + F.Closure(s) && cell in Opened()
              && (Opened() == s.open + F.Closure(s) <==> refused <= Opened())
    {
      ghost var s := F.Scene(Mines(), Flags(), Opened(), cell);
      ghost var start := T.Begin(s);
      turns := 0;
      stack[0] := cell;
      var top := 1;
      assert stack[..1] == [cell];
      while top > 0
        invariant 0 <= top <= CELLS && s.mines == Mines() && s.flags == Flags()
        invariant T.Fill(Opened(), stack[..top]) == T.Turns(s.mines, s.flags, start, turns)
        decreases AllCells() - Opened(), top
      {
        top := OneTurn(top);
        turns := turns + 1;
      }
      assert stack[..0] == [];
      T.FillExactly(s, turns);
      refused := T.RefusedIn(s.mines, s.flags, start, turns);
    }

    /** One turn of the fill's loop. */
    method OneTurn(top0: nat) returns (top: nat)
      requires Shape() && 0 < top0 <= CELLS
      modifies open, stack
      ensures top <= CELLS
      ensures T.Fill(Opened(), stack[..top]) == T.Turn(Mines(), Flags(), T.Fill(old(Opened()), old(stack[..top0])))
      ensures (Opened() == old(Opened()) && top < top0) || AllCells() - Opened() < AllCells() - old(Opened())
    {
      top := top0 - 1;
      var cur := stack[top];
      ghost var before, rest := Opened(), stack[..top];
      assert stack[..top0] == rest + [cur];
      var isOpen := TestBit(open, cur);
      if isOpen {
        return;
      }
      top := OpenCell(cur, top);
      assert Within(cur, 0, CELLS) && cur in AllCells() - before;
    }

    /** check_win */
    method CheckWin()
      requires Shape()
      modifies `state
      ensures state == if AllCells() - Mines() <= Opened() then WON else old(state)
    {
      var closed := 0;
      for c := 0 to CELLS
        invariant closed >= 0 && state == old(state)
        invariant closed == 0 <==> forall d :: d in Range(0, c) && d !in Mines() ==> d in Opened()
      {
        var o := TestBit(open, c);
        var m := TestBit(mine, c);
        assert Within(c, 0, c + 1);
        assert Range(0, c + 1) == Range(0, c) + {c};
        if !o && !m {
          closed := closed + 1;
        }
      }
      if closed == 0 {
        state := WON;
      }
    }

    method NewGame()
      requires Shape()
      modifies mine, open, flag, `cursor, `pending, `rowPick, `placed, `state, `mineLeft
      ensures View() == Fresh(old(seed))
    {
      ClearAll(mine);
      ClearAll(open);
      ClearAll(flag);
      cursor := 4 * N + 4;
      pending, rowPick, placed, state, mineLeft := false, 0, false, PLAYING, MINES;
    }

    /** step: the cursor walks the board and wraps. */
    method Step(delta: int)
      requires delta == 1 || delta == -1
      modifies `cursor
      ensures cursor == (old(cursor) + delta + CELLS) % CELLS
    {
      var cell := cursor as int + delta;
      if cell < 0 {
        cell := CELLS - 1;
      }
      if cell >= CELLS {
        cell := 0;
      }
      cursor := cell;
    }

    method ToggleFlag()
      requires Valid() && state == PLAYING
      modifies flag, `mineLeft
      ensures View() == Press(old(View()), Flag)
    {
      var isOpen := TestBit(open, cursor);
      if isOpen {
        return;
      }
      var flagged := TestBit(flag, cursor);
      if flagged {
        SetBit(flag, cursor, false);
        mineLeft := mineLeft + 1;
      } else if mineLeft > 0 {
        SetBit(flag, cursor, true);
        mineLeft := mineLeft - 1;
      }
    }

    static lemma Filled(v: MineRules.View, turns: nat, open: set<Cell>)
      requires T.Turns(v.mines, v.flags, T.Fill(v.open, [v.cursor]), turns) == T.Fill(open, [])
      ensures T.Fills(v.mines, v.flags, v.open, v.cursor, open)
    {
    }

    /** MENU while playing: reveal the cell under the cursor. */
    method Uncover()
      requires Valid() && state == PLAYING
      modifies mine, open, stack, `seed, `placed, `state
      ensures seed < WORD32 && Uncovers(old(View()), View())
    {
      var flagged := TestBit(flag, cursor);
      if flagged {
        return;
      }
      if !placed {
        PlaceMines(cursor);
      }
      var mined := TestBit(mine, cursor);
      if mined {
        SetBit(open, cursor, true);
        state := LOST;
        return;
      }
      ghost var board := View();
      ghost var refused, turns := Reveal(cursor);
      Filled(board, turns, Opened());
      CheckWin();
    }

    /** The body of app_main's loop for one key; quit is set by EXIT. */
    method HandleKey(key: Key) returns (quit: bool)
      requires Valid()
      modifies this, mine, open, flag, stack
      ensures Valid() && quit == (key == Exit) && Next(old(View()), key, View())
    {
      ghost var v := View();
      quit := Dispatch(key);
      NextKeepsGood(v, key, View());
    }

    /** A digit: the first picks the row, the second the column. */
    method Digit(d: nat)
      requires Valid() && state == PLAYING && 1 <= d <= 9
      modifies `cursor, `pending, `rowPick
      ensures View() == Press(old(View()), Key.Digit(d))
    {
      if !pending {
        rowPick := d;
        pending := true;
      } else {
        cursor := (rowPick - 1) * N + (d - 1);
        pending := false;
      }
    }

    /** The keys that act only while the game lasts. */
    method Play(key: Key)
      requires Valid() && state == PLAYING && key !in {Exit, Star}
      modifies mine, open, flag, stack, `cursor, `pending, `rowPick, `placed, `state, `mineLeft, `seed
      ensures seed < WORD32 && Next(old(View()), key, View())
    {
      if key == Up {
        Step(-1);
      } else if key == Down {
        Step(1);
      } else if key.Digit? && 1 <= key.d <= 9 {
        Digit(key.d);
      } else if key == Flag {
        ToggleFlag();
      } else if key == Menu {
        Uncover();
      }
    }

    method Dispatch(key: Key) returns (quit: bool)
      requires Valid()
      modifies this, mine, open, flag, stack
      ensures Shape() && seed < WORD32 && quit == (key == Exit) && Next(old(View()), key, View())
    {
      quit := key == Exit;
      if key == Nothing || key == Exit {
        return;
      }
      if key == Star || (key == Menu && state != PLAYING) {
        NewGame();
      } else if state == PLAYING {
        Play(key);
      }
    }

    /** app_main: a key at a time until EXIT, a game by the rules throughout. */
    method AppMain(keys: seq<Key>) returns (ghost views: seq<MineRules.View>, handled: nat)
      requires Shape() && seed < WORD32
      modifies this, mine, open, flag, stack
      ensures Valid() && handled <= |keys| && MineRules.Game(views, keys[..handled]) && views[handled] == View()
      ensures views[0].seed == old(seed)
      ensures handled < |keys| ==> handled > 0 && keys[handled - 1] == Exit
    {
      NewGame();
      views, handled := [View()], 0;
      for i := 0 to |keys|
        invariant Valid() && handled == i && MineRules.Game(views, keys[..i]) && views[i] == View()
        invariant views[0].seed == old(seed)
      {
        var quit := HandleKey(keys[i]);
        KeyAdded(views, keys, i, View());
        views, handled := views + [View()], i + 1;
        if quit {
          return;
        }
      }
    }
  }
}
