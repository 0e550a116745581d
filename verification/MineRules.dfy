/** The rules of the game as the keys see them, and what holds over every sequence of keys. */
module MineRules {
  import opened MineField
  import opened MineDraw
  import opened Flood
  import T = FloodTurns

  datatype Key = Nothing | Exit | Star | Menu | Up | Down | Digit(d: nat) | Flag | Other

  const PLAYING: nat := 0
  const LOST: nat := 1
  const WON: nat := 2

  datatype View = View(mines: set<Cell>, open: set<Cell>, flags: set<Cell>, cursor: Cell, pending: bool,
                       rowPick: nat, placed: bool, state: nat, mineLeft: int, seed: nat)

  /** A new game. The seed goes on from the game before. */
  function Fresh(seed: nat): View { View({}, {}, {}, 40, false, 0, false, PLAYING, MINES, seed) }

  /** What every key does but a MENU that uncovers. */
  function Press(v: View, key: Key): View
    requires v.pending ==> 1 <= v.rowPick <= 9
  {
    match key
    case Star => Fresh(v.seed)
    case Menu => if v.state != PLAYING then Fresh(v.seed) else v
    case Up => if v.state == PLAYING then v.(cursor := if v.cursor == 0 then CELLS - 1 else v.cursor - 1) else v
    case Down => if v.state == PLAYING then v.(cursor := (v.cursor + 1) % CELLS) else v
    case Digit(d) =>
      if v.state != PLAYING || !(1 <= d <= 9) then v
      else if v.pending then v.(cursor := (v.rowPick - 1) * N + (d - 1), pending := false)
      else v.(rowPick := d, pending := true)
    case Flag =>
      if v.state != PLAYING || v.cursor in v.open then v
      else if v.cursor in v.flags then v.(flags := v.flags - {v.cursor}, mineLeft := v.mineLeft + 1)
      else if v.mineLeft > 0 then v.(flags := v.flags + {v.cursor}, mineLeft := v.mineLeft - 1)
      else v
    case _ => v
  }

  /** A MENU while playing: which cells are mined is settled by the first, and which it opens by the fill, which
      may fall short of the closure when its stack is full. */
  ghost predicate Uncovers(v: View, w: View)
  {
    if v.cursor in v.flags then w == v
    else
      && w == v.(mines := w.mines, open := w.open, placed := true, state := w.state, seed := w.seed)
      && (if v.placed then w.mines == v.mines && w.seed == v.seed else Lays(v.seed, v.cursor, w.mines, w.seed))
      && (if v.cursor in w.mines then w.open == v.open + {v.cursor} && w.state == LOST
          else
            && T.Fills(w.mines, v.flags, v.open, v.cursor, w.open)
            && v.open <= w.open <= v.open + Closure(Scene(w.mines, v.flags, v.open, v.cursor))
            && v.cursor in w.open
            && w.state == if AllCells() - w.mines <= w.open then WON else PLAYING)
  }

  ghost predicate Next(v: View, key: Key, w: View)
  {
    && (v.pending ==> 1 <= v.rowPick <= 9)
    && if key == Menu && v.state == PLAYING then Uncovers(v, w) else w == Press(v, key)
  }

  /** What holds between any two keys. */
  ghost predicate Good(v: View)
  {
    && v.state <= WON && (v.pending ==> 1 <= v.rowPick <= 9)
    && v.mineLeft >= 0 && v.mineLeft + |v.flags| == MINES
    && v.flags !! v.open
    && (if v.placed then |v.mines| == MINES else v.mines == {} && v.open == {} && v.state == PLAYING)
    && (v.state != LOST ==> v.open !! v.mines)
    && (v.state == LOST ==> v.cursor in v.mines && v.open * v.mines == {v.cursor})
    && (v.state == WON ==> v.open == AllCells() - v.mines)
    && (v.placed && v.state == PLAYING ==> v.open != AllCells() - v.mines)
  }

  lemma UncoverKeepsGood(v: View, w: View)
    requires Good(v) && v.state == PLAYING && Uncovers(v, w)
    ensures Good(w)
    ensures !v.placed ==> w.state != LOST
  {
    if v.cursor !in v.flags {
      if !v.placed {
        LaysFairly(v.seed, v.cursor, w.mines, w.seed);
      }
      if v.cursor in w.mines {
        assert v.placed by { assert Near(v.cursor, v.cursor); }
        assert w.open * w.mines == {v.cursor};
      } else {
        ClosureSafe(Scene(w.mines, v.flags, v.open, v.cursor));
        forall c | c in w.open
          ensures c in AllCells()
        {
          assert Within(c, 0, CELLS);
        }
      }
    }
  }

  /** Mines left and flags add up to ten; flags and open cells are disjoint; nothing mined is open
      while the game lasts; won means open is exactly what is not mined; the first reveal is safe. */
  lemma NextKeepsGood(v: View, key: Key, w: View)
    requires Good(v) && Next(v, key, w)
    ensures Good(w)
    ensures key == Menu && v.state == PLAYING && !v.placed ==> w.state != LOST
  {
    if key == Menu && v.state == PLAYING {
      UncoverKeepsGood(v, w);
    }
  }

  /** What each key does to the view, but for a MENU that uncovers. */
  lemma KeyExactly(v: View, key: Key, w: View)
    requires Good(v) && Next(v, key, w) && (key == Menu ==> v.state != 0)
    ensures key == Nothing || key == Exit || key == Other ==> w == v
    ensures key == Star || key == Menu ==> w == View({}, {}, {}, 40, false, 0, false, 0, 10, v.seed)
    ensures v.state != 0 && key != Star && key != Menu ==> w == v
    ensures v.state == 0 && key == Up ==> w == v.(cursor := (v.cursor + 80) % 81)
    ensures v.state == 0 && key == Down ==> w == v.(cursor := (v.cursor + 1) % 81)
    ensures v.state == 0 && key == Flag ==>
              if v.cursor in v.flags then w == v.(flags := v.flags - {v.cursor}, mineLeft := v.mineLeft + 1)
              else if v.cursor in v.open || |v.flags| == 10 then w == v
              else w == v.(flags := v.flags + {v.cursor}, mineLeft := v.mineLeft - 1)
  {
  }

  /** Two digits go to that row and column, from wherever the cursor is; any other digit does nothing. */
  lemma TwoDigits(v: View, row: nat, w: View, col: nat, x: View)
    requires Good(v) && v.state == 0 && !v.pending && Next(v, Digit(row), w) && Next(w, Digit(col), x)
    requires 1 <= row <= 9
    ensures w.cursor == v.cursor && w.pending
    ensures if 1 <= col <= 9 then x == v.(cursor := 9 * (row - 1) + (col - 1), rowPick := row) else x == w
  {
  }

  /** The app is deterministic: a key leads from one view to one view at most. */
  lemma OneNext(v: View, key: Key, w: View, x: View)
    requires Next(v, key, w) && Next(v, key, x)
    ensures w == x
  {
    if key == Menu && v.state == PLAYING && v.cursor !in v.flags {
      if !v.placed {
        OneBoard(v.seed, v.cursor, Deal(w.mines, w.seed), Deal(x.mines, x.seed));
      }
      if v.cursor !in w.mines {
        T.OneFill(w.mines, v.flags, v.open, v.cursor, w.open, x.open);
      }
    }
  }

  /** A game: the view after each key, starting from a fresh board. */
  ghost predicate Game(views: seq<View>, keys: seq<Key>)
  {
    && |views| == |keys| + 1 && views[0] == Fresh(views[0].seed)
    && forall i, j :: 0 <= i < |keys| && j == i + 1 ==> Next(views[i], keys[i], views[j])
  }

  lemma OneMoreKey(views: seq<View>, keys: seq<Key>, key: Key, w: View)
    requires Game(views, keys) && Next(views[|keys|], key, w)
    ensures Game(views + [w], keys + [key])
  {
  }

  lemma KeyAdded(views: seq<View>, keys: seq<Key>, i: nat, w: View)
    requires i < |keys| && Game(views, keys[..i]) && Next(views[i], keys[i], w)
    ensures Game(views + [w], keys[..i + 1])
  {
    OneMoreKey(views, keys[..i], keys[i], w);
    assert keys[..i + 1] == keys[..i] + [keys[i]];
  }

  /** Two games from the same seed over the same keys are the same. */
  lemma {:induction false} SameGame(views: seq<View>, others: seq<View>, keys: seq<Key>, n: nat)
    requires Game(views, keys) && Game(others, keys) && views[0].seed == others[0].seed && n < |views|
    ensures views[n] == others[n]
  {
    if n > 0 {
      SameGame(views, others, keys, n - 1);
      OneNext(views[n - 1], keys[n - 1], views[n], others[n]);
    }
  }

  lemma {:induction false} WholeGame(views: seq<View>, keys: seq<Key>, n: nat)
    requires Game(views, keys) && n < |views|
    ensures Good(views[n])
  {
    if n > 0 {
      WholeGame(views, keys, n - 1);
      NextKeepsGood(views[n - 1], keys[n - 1], views[n]);
    }
  }
}
