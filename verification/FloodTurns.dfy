/** The flood fill turn by turn, as a function of the board: what each pop opens and pushes. */
module FloodTurns {
  import opened MineField
  import F = Flood

  /** The places of a scan: three rows of three. */
  const PLACES: nat := 9

  datatype Fill = Fill(open: set<Cell>, stack: seq<Cell>)

  /** The cell at an offset, if it is one to push. */
  function Offer(open: set<Cell>, flags: set<Cell>, row: int, col: int): (r: seq<Cell>)
    ensures |r| <= 1
  {
    if OnBoard(row, col) && row * N + col !in open && row * N + col !in flags then [row * N + col] else []
  }

  function Dy(k: nat): int { if k < 3 then -1 else if k < 6 then 0 else 1 }

  function Dx(k: nat): int { if k == 0 || k == 3 || k == 6 then -1 else if k == 1 || k == 4 || k == 7 then 0 else 1 }

  /** The cells to push at the first k places of the scan around a cell. */
  function Offered(open: set<Cell>, flags: set<Cell>, row: int, col: int, k: nat): seq<Cell>
  {
    if k == 0 then []
    else Offered(open, flags, row, col, k - 1) + Offer(open, flags, row + Dy(k - 1), col + Dx(k - 1))
  }

  /** As many of them as the stack has room for. */
  function Stacked(stack: seq<Cell>, offered: seq<Cell>): (r: seq<Cell>)
    requires |stack| <= CELLS
    ensures |r| <= CELLS && stack <= r
  {
    var room := CELLS - |stack|;
    stack + if |offered| <= room then offered else offered[..room]
  }

  /** Those the stack has no room for. */
  function Refused(stack: seq<Cell>, offered: seq<Cell>): set<Cell>
    requires |stack| <= CELLS
  {
    var room := CELLS - |stack|;
    var over := if |offered| <= room then [] else offered[room..];
    set d | d in over
  }

  /** A closed cell is opened and, if no mine is around it, its neighbours are pushed. */
  function Opening(mines: set<Cell>, flags: set<Cell>, open: set<Cell>, stack: seq<Cell>, cur: Cell): (r: Fill)
    requires |stack| <= CELLS
    ensures |r.stack| <= CELLS && r.open == open + {cur}
  {
    Fill(open + {cur},
         if Zero(mines, cur) then Stacked(stack, Offered(open + {cur}, flags, cur / N, cur % N, PLACES)) else stack)
  }

  /** One turn of the loop: pop a cell and open it if it is closed. */
  function Turn(mines: set<Cell>, flags: set<Cell>, f: Fill): (r: Fill)
    requires |f.stack| <= CELLS
    ensures |r.stack| <= CELLS
  {
    if f.stack == [] then f
    else
      var cur, rest := f.stack[|f.stack| - 1], f.stack[..|f.stack| - 1];
      if cur in f.open then Fill(f.open, rest) else Opening(mines, flags, f.open, rest, cur)
  }

  function Turns(mines: set<Cell>, flags: set<Cell>, f: Fill, n: nat): (r: Fill)
    requires |f.stack| <= CELLS
    ensures |r.stack| <= CELLS
  {
    if n == 0 then f else Turn(mines, flags, Turns(mines, flags, f, n - 1))
  }

  /** The fill from a cell ends with these cells open. */
  ghost predicate Fills(mines: set<Cell>, flags: set<Cell>, open: set<Cell>, cell: Cell, after: set<Cell>)
  {
    exists n: nat :: Turns(mines, flags, Fill(open, [cell]), n) == Fill(after, [])
  }

  lemma {:induction false} Finished(mines: set<Cell>, flags: set<Cell>, f: Fill, m: nat, n: nat)
    requires |f.stack| <= CELLS && m <= n && Turns(mines, flags, f, m).stack == []
    ensures Turns(mines, flags, f, n) == Turns(mines, flags, f, m)
    decreases n
  {
    if m < n {
      Finished(mines, flags, f, m, n - 1);
    }
  }

  /** What the fill opens is a function of the board. */
  lemma OneFill(mines: set<Cell>, flags: set<Cell>, open: set<Cell>, cell: Cell, a: set<Cell>, b: set<Cell>)
    requires Fills(mines, flags, open, cell, a) && Fills(mines, flags, open, cell, b)
    ensures a == b
  {
    var f := Fill(open, [cell]);
    var m: nat :| Turns(mines, flags, f, m) == Fill(a, []);
    var n: nat :| Turns(mines, flags, f, n) == Fill(b, []);
    Finished(mines, flags, f, if m <= n then m else n, if m <= n then n else m);
  }

  /** What is offered is pushed, if there is room. */
  predicate Took(one: seq<Cell>, before: seq<Cell>, after: seq<Cell>)
  {
    after == if one != [] && |before| < CELLS then before + one else before
  }

  /** The scan of the first k places has made now of the stack: each cell offered was pushed, if there was room. */
  predicate Scanned(open: set<Cell>, flags: set<Cell>, row: int, col: int, stack: seq<Cell>, k: nat, now: seq<Cell>)
    decreases k
  {
    if k == 0 then now == stack
    else
      var one := Offer(open, flags, row + Dy(k - 1), col + Dx(k - 1));
      if one == [] then Scanned(open, flags, row, col, stack, k - 1, now)
      else
        || (|now| == CELLS && Scanned(open, flags, row, col, stack, k - 1, now))
        || (0 < |now| <= CELLS && now[|now| - 1] == one[0] &&
            Scanned(open, flags, row, col, stack, k - 1, now[..|now| - 1]))
  }

  lemma OneMore(stack: seq<Cell>, offered: seq<Cell>, one: seq<Cell>)
    requires |stack| <= CELLS && |one| <= 1
    ensures Stacked(stack, offered + one) ==
            if one != [] && |Stacked(stack, offered)| < CELLS then Stacked(stack, offered) + one
            else Stacked(stack, offered)
  {
  }

  /** One more place of the scan, which offers one. */
  lemma ScanOneMore(open: set<Cell>, flags: set<Cell>, row: int, col: int, stack: seq<Cell>, k: nat, r: int, c: int,
                    before: seq<Cell>, after: seq<Cell>)
    requires |before| <= CELLS && Scanned(open, flags, row, col, stack, k, before)
    requires r == row + Dy(k) && c == col + Dx(k) && Took(Offer(open, flags, r, c), before, after)
    ensures Scanned(open, flags, row, col, stack, k + 1, after)
  {
    Grew(Offer(open, flags, r, c), before, after);
  }

  lemma Grew(one: seq<Cell>, before: seq<Cell>, after: seq<Cell>)
    requires |one| <= 1 && |before| <= CELLS && Took(one, before, after)
    ensures one == [] || |before| == CELLS ==> after == before
    ensures one != [] && |before| < CELLS ==>
              0 < |after| <= CELLS && after[..|after| - 1] == before && after[|after| - 1] == one[0]
  {
  }

  lemma PlaceOf(k: nat, dy: int, dx: int)
    requires -1 <= dy <= 1 && -1 <= dx <= 1 && k == (dy + 1) * 3 + (dx + 1)
    ensures Dy(k) == dy && Dx(k) == dx
  {
  }

  lemma Taken(stack: seq<Cell>, offered: seq<Cell>, one: seq<Cell>, now: seq<Cell>)
    requires |stack| <= CELLS && |one| == 1 && 0 < |now| <= CELLS && now[|now| - 1] == one[0]
    requires now[..|now| - 1] == Stacked(stack, offered)
    ensures now == Stacked(stack, offered + one)
  {
    OneMore(stack, offered, one);
    assert now == now[..|now| - 1] + one;
  }

  /** The stack after the scan of k places is a function of the board. */
  lemma {:induction false} ScannedIs(open: set<Cell>, flags: set<Cell>, row: int, col: int, stack: seq<Cell>, k: nat,
                                     now: seq<Cell>)
    requires |stack| <= CELLS && Scanned(open, flags, row, col, stack, k, now)
    ensures now == Stacked(stack, Offered(open, flags, row, col, k))
    decreases k
  {
    if k > 0 {
      var one := Offer(open, flags, row + Dy(k - 1), col + Dx(k - 1));
      var offered := Offered(open, flags, row, col, k - 1);
      if one == [] || (|now| == CELLS && Scanned(open, flags, row, col, stack, k - 1, now)) {
        ScannedIs(open, flags, row, col, stack, k - 1, now);
        OneMore(stack, offered, one);
      } else {
        ScannedIs(open, flags, row, col, stack, k - 1, now[..|now| - 1]);
        Taken(stack, offered, one, now);
      }
    }
  }

  // ------------------------------------------------ what is offered

  lemma OfferAt(open: set<Cell>, flags: set<Cell>, cur: Cell, dy: int, dx: int, d: Cell)
    requires -1 <= dy <= 1 && -1 <= dx <= 1
    ensures d in Offer(open, flags, cur / N + dy, cur % N + dx) <==>
            F.Pushable(open, flags, cur, d) && Order(cur, d) == (dy + 1) * 3 + (dx + 1)
  {
    if OnBoard(cur / N + dy, cur % N + dx) {
      CellAt(cur, dy, dx);
    }
    if F.Pushable(open, flags, cur, d) && Order(cur, d) == (dy + 1) * 3 + (dx + 1) {
      OnlyCellAt(cur, d, dy, dx);
    }
  }

  /** The first k places offer exactly the pushable cells among them. */
  lemma {:induction false} OfferedExactly(open: set<Cell>, flags: set<Cell>, cur: Cell, k: nat, d: Cell)
    requires k <= PLACES
    ensures d in Offered(open, flags, cur / N, cur % N, k) <==> F.Pushable(open, flags, cur, d) && Order(cur, d) < k
  {
    if k > 0 {
      OfferedExactly(open, flags, cur, k - 1, d);
      OfferAt(open, flags, cur, Dy(k - 1), Dx(k - 1), d);
    }
  }

  /** Every neighbour that is closed and not flagged is pushed or refused, and no other cell is. */
  lemma ScanPushes(open: set<Cell>, flags: set<Cell>, cur: Cell, stack: seq<Cell>)
    requires |stack| <= CELLS
    ensures var offered := Offered(open, flags, cur / N, cur % N, PLACES);
            F.Pushed(open, flags, cur, stack, Stacked(stack, offered), Refused(stack, offered))
  {
    var offered := Offered(open, flags, cur / N, cur % N, PLACES);
    forall d: Cell
      ensures d in offered <==> F.Pushable(open, flags, cur, d)
    {
      OfferedExactly(open, flags, cur, PLACES, d);
    }
    SplitOffer(open, flags, cur, stack, offered);
  }

  lemma SplitOffer(open: set<Cell>, flags: set<Cell>, cur: Cell, stack: seq<Cell>, offered: seq<Cell>)
    requires |stack| <= CELLS && forall d: Cell :: d in offered <==> F.Pushable(open, flags, cur, d)
    ensures F.Pushed(open, flags, cur, stack, Stacked(stack, offered), Refused(stack, offered))
  {
    var room := CELLS - |stack|;
    if |offered| > room {
      assert offered == offered[..room] + offered[room..];
    }
  }

  // ------------------------------------------------ what the guard on the stack costs

  /** The cells that one turn offers and the full stack refuses. */
  function RefusedBy(mines: set<Cell>, flags: set<Cell>, f: Fill): set<Cell>
    requires |f.stack| <= CELLS
  {
    if f.stack == [] then {}
    else
      var cur, rest := f.stack[|f.stack| - 1], f.stack[..|f.stack| - 1];
      if cur in f.open || !Zero(mines, cur) then {}
      else Refused(rest, Offered(f.open + {cur}, flags, cur / N, cur % N, PLACES))
  }

  /** And those of the first n turns. */
  function RefusedIn(mines: set<Cell>, flags: set<Cell>, f: Fill, n: nat): set<Cell>
    requires |f.stack| <= CELLS
  {
    if n == 0 then {}
    else RefusedIn(mines, flags, f, n - 1) + RefusedBy(mines, flags, Turns(mines, flags, f, n - 1))
  }

  ghost predicate Going(s: F.Scene, f: Fill, refused: set<Cell>)
  {
    |f.stack| <= CELLS && F.Progress(s, f.open, f.stack, refused)
  }

  lemma TurnProgress(s: F.Scene, f: Fill, refused: set<Cell>)
    requires Going(s, f, refused)
    ensures Going(s, Turn(s.mines, s.flags, f), refused + RefusedBy(s.mines, s.flags, f))
  {
    if f.stack != [] {
      var cur, rest := f.stack[|f.stack| - 1], f.stack[..|f.stack| - 1];
      assert f.stack == rest + [cur];
      if cur in f.open {
        F.ProgressSkips(s, f.open, rest, cur, refused);
      } else {
        ScanPushes(f.open + {cur}, s.flags, cur, rest);
        var g := Turn(s.mines, s.flags, f);
        F.ProgressOpens(s, f.open, rest, cur, refused, g.stack, RefusedBy(s.mines, s.flags, f));
      }
    }
    assert refused + {} == refused;
  }

  function Begin(s: F.Scene): (f: Fill)
    ensures |f.stack| <= CELLS
  {
    Fill(s.open, [s.start])
  }

  /** After n turns. */
  ghost predicate GoingAfter(s: F.Scene, n: nat)
  {
    Going(s, Turns(s.mines, s.flags, Begin(s), n), RefusedIn(s.mines, s.flags, Begin(s), n))
  }

  lemma NoTurnYet(s: F.Scene, n: nat)
    requires n == 0
    ensures GoingAfter(s, n)
  {
    F.ProgressStarts(s);
  }

  lemma OneMoreTurn(s: F.Scene, n: nat)
    requires GoingAfter(s, n)
    ensures GoingAfter(s, n + 1)
  {
    TurnProgress(s, Turns(s.mines, s.flags, Begin(s), n), RefusedIn(s.mines, s.flags, Begin(s), n));
  }

  lemma TurnsProgress(s: F.Scene, n: nat)
    ensures GoingAfter(s, n)
  {
    NoTurnYet(s, 0);
    for i := 0 to n
      invariant GoingAfter(s, i)
    {
      OneMoreTurn(s, i);
    }
  }

  /** The fill opens cells of the closure only, and all of it exactly if every cell that the full stack refused in
      some turn is open at the end. */
  lemma FillExactly(s: F.Scene, n: nat)
    requires Turns(s.mines, s.flags, Begin(s), n).stack == []
    ensures var open := Turns(s.mines, s.flags, Begin(s), n).open;
            && s.open <= open <= s.open + F.Closure(s) && s.start in open
            && (open == s.open + F.Closure(s) <==> RefusedIn(s.mines, s.flags, Begin(s), n) <= open)
  {
    TurnsProgress(s, n);
    F.FillComplete(s, Turns(s.mines, s.flags, Begin(s), n).open, RefusedIn(s.mines, s.flags, Begin(s), n));
  }

  // ------------------------------------------------ when the stack is large enough

  ghost predicate Empty(open: set<Cell>, flags: set<Cell>, cur: Cell, k: nat)
  {
    Offer(open, flags, cur / N + Dy(k), cur % N + Dx(k)) == []
  }

  /** Each place offers one cell at most, and two of them none. */
  lemma {:induction false} OfferedAtMost(open: set<Cell>, flags: set<Cell>, cur: Cell, k: nat, a: nat, b: nat)
    requires a != b && Empty(open, flags, cur, a) && (b < PLACES ==> Empty(open, flags, cur, b)) && k <= PLACES
    ensures |Offered(open, flags, cur / N, cur % N, k)| <= k - (if a < k then 1 else 0) - (if b < k then 1 else 0)
  {
    if k > 0 {
      OfferedAtMost(open, flags, cur, k - 1, a, b);
    }
  }

  /** Some other cell of the square around c is open. */
  ghost predicate Beside(open: set<Cell>, c: Cell)
  {
    exists d: Cell :: d in open && d != c && Near(c, d)
  }

  lemma OpenOffersNothing(open: set<Cell>, flags: set<Cell>, cur: Cell, d: Cell)
    requires Near(cur, d) && d in open
    ensures Order(cur, d) < PLACES && Empty(open, flags, cur, Order(cur, d))
    ensures d != cur ==> Order(cur, d) != 4
  {
    OnlyCellAt(cur, d, Dy(Order(cur, d)), Dx(Order(cur, d)));
  }

  /** A cell just opened offers eight cells at most, and seven if another one beside it is open. */
  lemma OfferedFew(open: set<Cell>, flags: set<Cell>, cur: Cell)
    requires cur in open
    ensures |Offered(open, flags, cur / N, cur % N, PLACES)| <= if Beside(open, cur) then 7 else 8
  {
    OpenOffersNothing(open, flags, cur, cur);
    if Beside(open, cur) {
      var d: Cell :| d in open && d != cur && Near(cur, d);
      OpenOffersNothing(open, flags, cur, d);
      OfferedAtMost(open, flags, cur, PLACES, 4, Order(cur, d));
    } else {
      OfferedAtMost(open, flags, cur, PLACES, 4, PLACES);
    }
  }

  /** The cells opened so far that spread the fill. */
  ghost function Spread(s: F.Scene, f: Fill): set<Cell>
  {
    set c | c in f.open && c !in s.open && Zero(s.mines, c)
  }

  /** The cells of the closure that would. */
  ghost function Spreading(s: F.Scene): set<Cell>
  {
    set c | c in F.Closure(s) && Zero(s.mines, c)
  }

  /** The stack holds no more than so many cells opened can have pushed. */
  ghost predicate Roomy(s: F.Scene, f: Fill)
  {
    && |f.stack| <= CELLS
    && |f.stack| <= (if Spread(s, f) == {} then 1 else 2 + 6 * |Spread(s, f)|)
    && (Spread(s, f) != {} ==> forall c :: c in f.stack ==> c in f.open || Beside(f.open, c))
  }

  lemma SpreadGrows(s: F.Scene, f: Fill, cur: Cell, stack: seq<Cell>)
    requires cur !in f.open && Zero(s.mines, cur) && cur !in s.open
    ensures Spread(s, Fill(f.open + {cur}, stack)) == Spread(s, f) + {cur} && cur !in Spread(s, f)
  {
  }

  lemma BesideStays(open: set<Cell>, cur: Cell, c: Cell)
    requires c in open || Beside(open, c)
    ensures c in open + {cur} || Beside(open + {cur}, c)
  {
    if c !in open {
      var d: Cell :| d in open && d != c && Near(c, d);
      assert d in open + {cur};
    }
  }

  /** A cell that spreads the fill finds room for all it offers, while few have. */
  lemma SpreadFits(s: F.Scene, f: Fill, rest: seq<Cell>, cur: Cell, offers: seq<Cell>)
    requires Roomy(s, f) && f.stack == rest + [cur] && cur !in f.open && cur !in s.open && Zero(s.mines, cur)
    requires offers == Offered(f.open + {cur}, s.flags, cur / N, cur % N, PLACES)
    ensures |rest + offers| <= 2 + 6 * (|Spread(s, f)| + 1)
    ensures |rest + offers| <= CELLS ==> Roomy(s, Fill(f.open + {cur}, rest + offers))
  {
    var open := f.open + {cur};
    assert cur in f.stack;
    if Spread(s, f) != {} {
      BesideStays(f.open, cur, cur);
      assert Beside(open, cur);
    }
    OfferedFew(open, s.flags, cur);
    SpreadGrows(s, f, cur, rest + offers);
    forall c | c in rest + offers
      ensures c in open || Beside(open, c)
    {
      if c in offers {
        OfferedExactly(open, s.flags, cur, PLACES, c);
        assert cur in open && Near(c, cur) && cur != c;
      } else if Spread(s, f) != {} {
        BesideStays(f.open, cur, c);
      }
    }
  }

  lemma FitsWhileFew(s: F.Scene, f: Fill, refused: set<Cell>, rest: seq<Cell>, cur: Cell, offers: seq<Cell>)
    requires Going(s, f, refused) && Roomy(s, f) && |Spreading(s)| <= 13
    requires f.stack == rest + [cur] && cur !in f.open && Zero(s.mines, cur)
    requires offers == Offered(f.open + {cur}, s.flags, cur / N, cur % N, PLACES)
    ensures |rest + offers| <= CELLS && Roomy(s, Fill(f.open + {cur}, rest + offers))
  {
    assert cur in f.stack && cur in F.Closure(s) && cur !in s.open;
    SpreadGrows(s, f, cur, rest);
    SubsetSize(Spread(s, f) + {cur}, Spreading(s));
    SpreadFits(s, f, rest, cur, offers);
  }

  lemma RoomyTurn(s: F.Scene, f: Fill, refused: set<Cell>)
    requires Going(s, f, refused) && Roomy(s, f) && |Spreading(s)| <= 13
    ensures Roomy(s, Turn(s.mines, s.flags, f)) && RefusedBy(s.mines, s.flags, f) == {}
  {
    if f.stack != [] {
      var cur, rest := f.stack[|f.stack| - 1], f.stack[..|f.stack| - 1];
      assert f.stack == rest + [cur];
      if cur in f.open {
        RoomyPop(s, f, cur, rest);
      } else if Zero(s.mines, cur) {
        var offers := Offered(f.open + {cur}, s.flags, cur / N, cur % N, PLACES);
        FitsWhileFew(s, f, refused, rest, cur, offers);
        AllStacked(rest, offers);
      } else {
        SpreadSame(s, f, cur, rest);
      }
    }
  }

  lemma AllStacked(rest: seq<Cell>, offers: seq<Cell>)
    requires |rest + offers| <= CELLS
    ensures Stacked(rest, offers) == rest + offers && Refused(rest, offers) == {}
  {
  }

  lemma RoomyPop(s: F.Scene, f: Fill, cur: Cell, rest: seq<Cell>)
    requires Roomy(s, f) && f.stack == rest + [cur]
    ensures Roomy(s, Fill(f.open, rest))
  {
    assert Spread(s, Fill(f.open, rest)) == Spread(s, f);
  }

  lemma SpreadSame(s: F.Scene, f: Fill, cur: Cell, rest: seq<Cell>)
    requires Roomy(s, f) && f.stack == rest + [cur] && cur !in f.open && !Zero(s.mines, cur)
    ensures Roomy(s, Fill(f.open + {cur}, rest))
  {
    assert Spread(s, Fill(f.open + {cur}, rest)) == Spread(s, f);
    forall c | c in rest && Spread(s, f) != {}
      ensures c in f.open + {cur} || Beside(f.open + {cur}, c)
    {
      BesideStays(f.open, cur, c);
    }
  }

  /** With at most thirteen cells in the closure that no mine is next to, no push is refused, and the fill opens all
      of the closure. */
  lemma FewSpreading(s: F.Scene, n: nat)
    requires |Spreading(s)| <= 13
    ensures RefusedIn(s.mines, s.flags, Begin(s), n) == {}
    ensures Turns(s.mines, s.flags, Begin(s), n).stack == [] ==>
              Turns(s.mines, s.flags, Begin(s), n).open == s.open + F.Closure(s)
  {
    RoomyStart(s);
    for i := 0 to n
      invariant Roomy(s, Turns(s.mines, s.flags, Begin(s), i)) && RefusedIn(s.mines, s.flags, Begin(s), i) == {}
    {
      TurnsProgress(s, i);
      RoomyTurn(s, Turns(s.mines, s.flags, Begin(s), i), RefusedIn(s.mines, s.flags, Begin(s), i));
    }
    if Turns(s.mines, s.flags, Begin(s), n).stack == [] {
      FillExactly(s, n);
    }
  }

  lemma FewFillAll(s: F.Scene, after: set<Cell>)
    requires Fills(s.mines, s.flags, s.open, s.start, after) && |Spreading(s)| <= 13
    ensures after == s.open + F.Closure(s)
  {
    var n: nat :| Turns(s.mines, s.flags, Begin(s), n) == Fill(after, []);
    FewSpreading(s, n);
  }

  lemma RoomyStart(s: F.Scene)
    ensures Roomy(s, Begin(s))
  {
    assert Spread(s, Begin(s)) == {};
  }
}
