/** What a reveal should open: cells reached by way of cells with no mine near. */
module Flood {
  import opened MineField

  /** The board as a reveal finds it. */
  datatype Scene = Scene(mines: set<Cell>, flags: set<Cell>, open: set<Cell>, start: Cell)

  predicate Leads(s: Scene, c: Cell, d: Cell)
  {
    Zero(s.mines, c) && Near(c, d) && d !in s.flags
  }

  /** A walk from the start over closed, unflagged cells, leaving each but the last only if no
      mine is around it. */
  ghost predicate Chain(s: Scene, p: seq<Cell>)
  {
    && p != [] && p[0] == s.start
    && (forall i :: 0 <= i < |p| ==> p[i] !in s.open)
    && (forall i, j :: 0 <= i < |p| && j == i + 1 < |p| ==> Leads(s, p[i], p[j]))
  }

  ghost predicate Reached(s: Scene, c: Cell)
  {
    exists p :: Chain(s, p) && p[|p| - 1] == c
  }

  ghost function Closure(s: Scene): set<Cell>
  {
    set c: Cell | 0 <= c < CELLS && Reached(s, c)
  }

  lemma StartReached(s: Scene)
    requires s.start !in s.open
    ensures s.start in Closure(s)
  {
    assert Chain(s, [s.start]);
  }

  lemma NextReached(s: Scene, c: Cell, d: Cell)
    requires c in Closure(s) && Zero(s.mines, c) && Near(c, d) && d !in s.open && d !in s.flags
    ensures d in Closure(s)
  {
    var p :| Chain(s, p) && p[|p| - 1] == c;
    assert Chain(s, p + [d]);
    assert (p + [d])[|p + [d]| - 1] == d;
  }

  /** A set that holds the start and every next cell holds the closure. */
  ghost predicate Closed(s: Scene, t: set<Cell>)
  {
    && s.start in t
    && forall c, d :: c in t && c !in s.open && Zero(s.mines, c) && Near(c, d) && d !in s.open && d !in s.flags ==>
         d in t
  }

  lemma {:induction false} ChainInside(s: Scene, t: set<Cell>, p: seq<Cell>, i: nat)
    requires Closed(s, t) && Chain(s, p) && i < |p|
    ensures p[i] in t
  {
    if i > 0 {
      assert Leads(s, p[i - 1], p[i]);
      ChainInside(s, t, p, i - 1);
    }
  }

  lemma ClosureLeast(s: Scene, t: set<Cell>)
    requires Closed(s, t)
    ensures Closure(s) <= t
  {
    forall c | c in Closure(s)
      ensures c in t
    {
      var p :| Chain(s, p) && p[|p| - 1] == c;
      ChainInside(s, t, p, |p| - 1);
    }
  }

  /** From a safe, unflagged start the closure has no mine and no flag in it. */
  lemma ClosureSafe(s: Scene)
    requires s.start !in s.mines && s.start !in s.flags
    ensures Closure(s) !! s.mines && Closure(s) !! s.flags && Closure(s) !! s.open
  {
    forall c | c in Closure(s)
      ensures c !in s.mines && c !in s.flags && c !in s.open
    {
      var p :| Chain(s, p) && p[|p| - 1] == c;
      NoMineOnWalk(s, p, |p| - 1);
      if |p| > 1 {
        assert Leads(s, p[|p| - 2], p[|p| - 1]);
      }
    }
  }

  lemma {:induction false} NoMineOnWalk(s: Scene, p: seq<Cell>, i: nat)
    requires s.start !in s.mines && Chain(s, p) && i < |p|
    ensures p[i] !in s.mines
  {
    if i > 0 {
      NoMineOnWalk(s, p, i - 1);
      assert Leads(s, p[i - 1], p[i]);
      assert p[i] != p[i - 1] ==> p[i] in Around(p[i - 1]);
    }
  }

  // ------------------------------------------------ the stack

  predicate Pushable(open: set<Cell>, flags: set<Cell>, cur: Cell, d: Cell)
  {
    Near(cur, d) && d !in open && d !in flags
  }

  /** after is before with some neighbours of cur pushed; gained are the refused ones. */
  ghost predicate Pushed(open: set<Cell>, flags: set<Cell>, cur: Cell, before: seq<Cell>, after: seq<Cell>,
                         gained: set<Cell>)
  {
    && before <= after
    && (forall i :: |before| <= i < |after| ==> Pushable(open, flags, cur, after[i]))
    && (forall d :: d in gained ==> Pushable(open, flags, cur, d))
    && (forall d :: Pushable(open, flags, cur, d) ==> d in after || d in gained)
  }

  // ------------------------------------------------ the fill

  /** Every next cell of c is open, waiting on the stack, or was refused. */
  ghost predicate Settled(s: Scene, open: set<Cell>, stack: seq<Cell>, refused: set<Cell>, c: Cell)
  {
    forall d :: Near(c, d) && d !in s.open && d !in s.flags ==> d in open || d in stack || d in refused
  }

  ghost predicate Progress(s: Scene, open: set<Cell>, stack: seq<Cell>, refused: set<Cell>)
  {
    && s.open <= open <= s.open + Closure(s)
    && (forall c :: c in stack ==> c in s.open || c in Closure(s))
    && (s.start in open || s.start in stack)
    && refused <= Closure(s)
    && (forall c :: c in open && c !in s.open && Zero(s.mines, c) ==> Settled(s, open, stack, refused, c))
  }

  lemma ProgressStarts(s: Scene)
    ensures Progress(s, s.open, [s.start], {})
  {
    if s.start !in s.open {
      StartReached(s);
    }
  }

  /** A popped cell that is open already. */
  lemma ProgressSkips(s: Scene, open: set<Cell>, stack: seq<Cell>, cur: Cell, refused: set<Cell>)
    requires Progress(s, open, stack + [cur], refused) && cur in open
    ensures Progress(s, open, stack, refused)
  {
  }

  /** A popped cell that is opened, without its neighbours if a mine is around it. */
  lemma ProgressOpens(s: Scene, open: set<Cell>, stack: seq<Cell>, cur: Cell, refused: set<Cell>,
                      pushed: seq<Cell>, gained: set<Cell>)
    requires Progress(s, open, stack + [cur], refused) && cur !in open
    requires if Zero(s.mines, cur) then Pushed(open + {cur}, s.flags, cur, stack, pushed, gained)
             else pushed == stack && gained == {}
    ensures Progress(s, open + {cur}, pushed, refused + gained)
  {
    assert cur in stack + [cur];
    forall d | (d in pushed && d !in stack) || d in gained
      ensures d in Closure(s)
    {
      NextReached(s, cur, d);
    }
    forall c | c in open + {cur} && c !in s.open && Zero(s.mines, c)
      ensures Settled(s, open + {cur}, pushed, refused + gained, c)
    {
      if c != cur {
        assert Settled(s, open, stack + [cur], refused, c);
      }
    }
  }

  /** With the stack empty, the fill is the closure exactly if every refused cell was opened
      some other way. */
  lemma FillComplete(s: Scene, open: set<Cell>, refused: set<Cell>)
    requires Progress(s, open, [], refused)
    ensures open == s.open + Closure(s) <==> refused <= open
    ensures s.start in open
  {
    if refused <= open {
      forall c, d | c in open && c !in s.open && Zero(s.mines, c) && Near(c, d) && d !in s.open && d !in s.flags
        ensures d in open
      {
        assert Settled(s, open, [], refused, c);
      }
      ClosureLeast(s, open);
    }
  }
}
