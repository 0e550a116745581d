/** Drawing the mines: the tries of place_mines as a function of the seed and the first cell. */
module MineDraw {
  import opened Bits
  import opened MineField
  import L = Lcg

  /** The mines laid so far, and the seed. */
  datatype Deal = Deal(mines: set<Cell>, seed: nat)

  /** The cell a seed draws. */
  function Drawn(seed: nat): Cell
  {
    seed / 0x1_0000 % CELLS
  }

  /** What the first cell adds to the seed. */
  function Mixed(seed: nat, safe: Cell): (r: nat)
    ensures r < WORD32
  {
    (seed + safe * 2654435761 + 1) % WORD32
  }

  /** One try: a mine is laid where it may go, and nothing is laid elsewhere. */
  function Try(d: Deal, safe: Cell): Deal
  {
    var seed := L.Next(d.seed);
    Deal(if Eligible(Drawn(seed), d.mines, safe) then d.mines + {Drawn(seed)} else d.mines, seed)
  }

  /** The first n tries. */
  function Tries(seed: nat, safe: Cell, n: nat): Deal
  {
    if n == 0 then Deal({}, Mixed(seed, safe)) else Try(Tries(seed, safe, n - 1), safe)
  }

  /** The nth try lays the last mine. */
  ghost predicate LastTry(seed: nat, safe: Cell, n: nat)
  {
    n > 0 && |Tries(seed, safe, n).mines| == MINES && |Tries(seed, safe, n - 1).mines| < MINES
  }

  /** Placing from that seed lays these mines and leaves that seed behind. */
  ghost predicate Lays(seed: nat, safe: Cell, mines: set<Cell>, after: nat)
  {
    exists n: nat :: LastTry(seed, safe, n) && Tries(seed, safe, n) == Deal(mines, after)
  }

  /** The nth try from a seed would lay a mine. */
  ghost predicate Promised(mines: set<Cell>, safe: Cell, seed: nat, n: nat)
  {
    n > 0 && Eligible(Drawn(L.Iter(n, seed)), mines, safe)
  }

  /** While mines are missing some try ahead lays one: the generator reaches every word. */
  lemma SomePromise(mines: set<Cell>, safe: Cell, seed: nat) returns (n: nat)
    requires |mines| < MINES && seed < WORD32
    ensures Promised(mines, safe, seed, n)
  {
    var e := SomeEligible(mines, safe);
    n := L.FullPeriod(L.Next(seed), e as nat * 0x1_0000);
    n := n + 1;
  }

  /** A try that lays nothing comes nearer to it. */
  lemma Nearer(mines: set<Cell>, safe: Cell, seed: nat, n: nat)
    requires Promised(mines, safe, seed, n) && !Eligible(Drawn(L.Next(seed)), mines, safe)
    ensures Promised(mines, safe, L.Next(seed), n - 1)
  {
    assert L.Iter(n, seed) == L.Iter(n - 1, L.Next(seed));
  }

  lemma NextTry(seed: nat, safe: Cell, n: nat, d: Deal, next: nat)
    requires Tries(seed, safe, n) == d && next == L.Next(d.seed)
    ensures Tries(seed, safe, n + 1) ==
            Deal(if Eligible(Drawn(next), d.mines, safe) then d.mines + {Drawn(next)} else d.mines, next)
    ensures |d.mines| == MINES - 1 && Eligible(Drawn(next), d.mines, safe) ==> LastTry(seed, safe, n + 1)
  {
  }

  lemma {:induction false} TriesFair(seed: nat, safe: Cell, n: nat)
    ensures forall c :: c in Tries(seed, safe, n).mines ==> !Near(safe, c)
  {
    if n > 0 {
      TriesFair(seed, safe, n - 1);
    }
  }

  /** Ten mines, none in the square around the first cell. */
  lemma LaysFairly(seed: nat, safe: Cell, mines: set<Cell>, after: nat)
    requires Lays(seed, safe, mines, after)
    ensures |mines| == MINES && forall c :: c in mines ==> !Near(safe, c)
  {
    var n: nat :| LastTry(seed, safe, n) && Tries(seed, safe, n) == Deal(mines, after);
    TriesFair(seed, safe, n);
  }

  lemma {:induction false} TriesGrow(seed: nat, safe: Cell, m: nat, n: nat)
    requires m <= n
    ensures |Tries(seed, safe, m).mines| <= |Tries(seed, safe, n).mines|
    decreases n
  {
    if m < n {
      TriesGrow(seed, safe, m, n - 1);
    }
  }

  lemma OneLastTry(seed: nat, safe: Cell, m: nat, n: nat)
    requires LastTry(seed, safe, m) && LastTry(seed, safe, n)
    ensures m == n
  {
    if m < n {
      TriesGrow(seed, safe, m, n - 1);
    }
    if n < m {
      TriesGrow(seed, safe, n, m - 1);
    }
  }

  /** The board is a function of the seed and the first cell. */
  lemma OneBoard(seed: nat, safe: Cell, d: Deal, e: Deal)
    requires Lays(seed, safe, d.mines, d.seed) && Lays(seed, safe, e.mines, e.seed)
    ensures d == e
  {
    var m: nat :| LastTry(seed, safe, m) && Tries(seed, safe, m) == Deal(d.mines, d.seed);
    var n: nat :| LastTry(seed, safe, n) && Tries(seed, safe, n) == Deal(e.mines, e.seed);
    OneLastTry(seed, safe, m, n);
  }

  /** The next try lays a mine or comes nearer to the promised one. */
  lemma TryOn(first: nat, safe: Cell, tries: nat, laid: set<Cell>, from: nat, n: nat)
    requires Tries(first, safe, tries) == Deal(laid, from) && Promised(laid, safe, from, n)
    ensures var cell := Drawn(L.Next(from));
            && Tries(first, safe, tries + 1) ==
               Deal(if Eligible(cell, laid, safe) then laid + {cell} else laid, L.Next(from))
            && (|laid| == MINES - 1 && Eligible(cell, laid, safe) ==> LastTry(first, safe, tries + 1))
            && (Eligible(cell, laid, safe) ==> |laid + {cell}| == |laid| + 1)
            && (!Eligible(cell, laid, safe) ==> n > 1 && Promised(laid, safe, L.Next(from), n - 1))
  {
    NextTry(first, safe, tries, Deal(laid, from), L.Next(from));
    if !Eligible(Drawn(L.Next(from)), laid, safe) {
      Nearer(laid, safe, from, n);
    }
  }

  lemma LastLays(first: nat, safe: Cell, tries: nat, mines: set<Cell>, seed: nat)
    requires Tries(first, safe, tries) == Deal(mines, seed) && LastTry(first, safe, tries)
    ensures Lays(first, safe, mines, seed) && |mines| == MINES && forall c :: c in mines ==> !Near(safe, c)
  {
    LaysFairly(first, safe, mines, seed);
  }
}
