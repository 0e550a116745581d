/** The tables of FloodTable hold, turn by turn, of the board of FirstBoard. */
module FloodRows {
  import opened FloodTable

  lemma Opens0()
    ensures Opens(0, 6, 7) && Opens(1, 7, 8) && Opens(2, 7, 7) && Opens(3, 7, 6) && Opens(4, 6, 8)
  {
  }

  lemma Opens5()
    ensures Opens(5, 5, 8) && Opens(6, 5, 7) && Opens(7, 6, 6) && Opens(8, 7, 5) && Opens(9, 8, 6)
  {
  }

  lemma Opens10()
    ensures Opens(10, 8, 5) && Opens(11, 8, 4) && Opens(12, 8, 3) && Opens(13, 8, 2) && Opens(14, 7, 4)
  {
  }

  lemma Opens15()
    ensures Opens(15, 7, 3) && Opens(16, 7, 2) && Opens(17, 6, 4) && Opens(18, 6, 5) && Opens(19, 5, 6)
  {
  }

  lemma Opens20()
    ensures Opens(20, 5, 5) && Opens(21, 5, 4) && Opens(22, 6, 3) && Opens(23, 6, 2) && Opens(24, 5, 3)
  {
  }

  lemma Opens25()
    ensures Opens(25, 5, 2) && Opens(26, 4, 4) && Opens(27, 4, 5) && Opens(28, 4, 6) && Opens(29, 3, 6)
  {
  }

  lemma Opens30()
    ensures Opens(30, 3, 5) && Opens(31, 3, 4) && Opens(32, 4, 3) && Opens(33, 4, 2) && Opens(34, 5, 1)
  {
  }

  lemma Opens35()
    ensures Opens(35, 4, 1) && Opens(36, 3, 3) && Opens(37, 3, 2) && Opens(38, 3, 1) && Opens(39, 2, 3)
  {
  }

  lemma Opens40()
    ensures Opens(40, 2, 4) && Opens(41, 2, 5) && Opens(42, 2, 6) && Opens(43, 1, 6)
  {
  }

  lemma Spreads0()
    ensures Spreads(0, 6, 7) && Spreads(4, 6, 8)
  {
  }

  lemma Spreads5()
    ensures Spreads(5, 5, 8) && Spreads(6, 5, 7)
  {
  }

  lemma Spreads7()
    ensures Spreads(7, 6, 6) && Spreads(8, 7, 5)
  {
  }

  lemma Spreads10()
    ensures Spreads(10, 8, 5) && Spreads(11, 8, 4)
  {
  }

  lemma Spreads12()
    ensures Spreads(12, 8, 3) && Spreads(14, 7, 4)
  {
  }

  lemma Spreads15()
    ensures Spreads(15, 7, 3) && Spreads(17, 6, 4)
  {
  }

  lemma Spreads18()
    ensures Spreads(18, 6, 5)
  {
  }

  lemma Spreads19()
    ensures Spreads(19, 5, 6)
  {
  }

  lemma Spreads20()
    ensures Spreads(20, 5, 5) && Spreads(21, 5, 4)
  {
  }

  lemma Spreads22()
    ensures Spreads(22, 6, 3) && Spreads(24, 5, 3)
  {
  }

  lemma Spreads26()
    ensures Spreads(26, 4, 4) && Spreads(27, 4, 5)
  {
  }

  lemma Spreads30()
    ensures Spreads(30, 3, 5) && Spreads(31, 3, 4)
  {
  }

  lemma Spreads32()
    ensures Spreads(32, 4, 3) && Spreads(33, 4, 2)
  {
  }

  lemma Spreads36()
    ensures Spreads(36, 3, 3) && Spreads(37, 3, 2)
  {
  }

  lemma Spreads39()
    ensures Spreads(39, 2, 3) && Spreads(40, 2, 4)
  {
  }

  lemma Spreads41()
    ensures Spreads(41, 2, 5) && Spreads(43, 1, 6)
  {
  }

  lemma Numbered1()
    ensures Numbered(1, 7, 8) && Numbered(2, 7, 7) && Numbered(3, 7, 6) && Numbered(9, 8, 6) && Numbered(13, 8, 2)
  {
  }

  lemma Numbered16()
    ensures Numbered(16, 7, 2) && Numbered(23, 6, 2) && Numbered(25, 5, 2) && Numbered(28, 4, 6) && Numbered(29, 3, 6)
  {
  }

  lemma Numbered34()
    ensures Numbered(34, 5, 1) && Numbered(35, 4, 1) && Numbered(38, 3, 1) && Numbered(42, 2, 6)
  {
  }

  lemma EarlyRows(t: nat) returns (r: nat, c: nat)
    requires 0 <= t < 22
    ensures Row(t, r, c)
  {
    match t
    case 0 =>
      r, c := 6, 7;
      Opens0();
      Spreads0();
    case 1 =>
      r, c := 7, 8;
      Opens0();
      Numbered1();
    case 2 =>
      r, c := 7, 7;
      Opens0();
      Numbered1();
    case 3 =>
      r, c := 7, 6;
      Opens0();
      Numbered1();
    case 4 =>
      r, c := 6, 8;
      Opens0();
      Spreads0();
    case 5 =>
      r, c := 5, 8;
      Opens5();
      Spreads5();
    case 6 =>
      r, c := 5, 7;
      Opens5();
      Spreads5();
    case 7 =>
      r, c := 6, 6;
      Opens5();
      Spreads7();
    case 8 =>
      r, c := 7, 5;
      Opens5();
      Spreads7();
    case 9 =>
      r, c := 8, 6;
      Opens5();
      Numbered1();
    case 10 =>
      r, c := 8, 5;
      Opens10();
      Spreads10();
    case 11 =>
      r, c := 8, 4;
      Opens10();
      Spreads10();
    case 12 =>
      r, c := 8, 3;
      Opens10();
      Spreads12();
    case 13 =>
      r, c := 8, 2;
      Opens10();
      Numbered1();
    case 14 =>
      r, c := 7, 4;
      Opens10();
      Spreads12();
    case 15 =>
      r, c := 7, 3;
      Opens15();
      Spreads15();
    case 16 =>
      r, c := 7, 2;
      Opens15();
      Numbered16();
    case 17 =>
      r, c := 6, 4;
      Opens15();
      Spreads15();
    case 18 =>
      r, c := 6, 5;
      Opens15();
      Spreads18();
    case 19 =>
      r, c := 5, 6;
      Opens15();
      Spreads19();
    case 20 =>
      r, c := 5, 5;
      Opens20();
      Spreads20();
    case 21 =>
      r, c := 5, 4;
      Opens20();
      Spreads20();
  }

  lemma LateRows(t: nat) returns (r: nat, c: nat)
    requires 22 <= t < 44
    ensures Row(t, r, c)
  {
    match t
    case 22 =>
      r, c := 6, 3;
      Opens20();
      Spreads22();
    case 23 =>
      r, c := 6, 2;
      Opens20();
      Numbered16();
    case 24 =>
      r, c := 5, 3;
      Opens20();
      Spreads22();
    case 25 =>
      r, c := 5, 2;
      Opens25();
      Numbered16();
    case 26 =>
      r, c := 4, 4;
      Opens25();
      Spreads26();
    case 27 =>
      r, c := 4, 5;
      Opens25();
      Spreads26();
    case 28 =>
      r, c := 4, 6;
      Opens25();
      Numbered16();
    case 29 =>
      r, c := 3, 6;
      Opens25();
      Numbered16();
    case 30 =>
      r, c := 3, 5;
      Opens30();
      Spreads30();
    case 31 =>
      r, c := 3, 4;
      Opens30();
      Spreads30();
    case 32 =>
      r, c := 4, 3;
      Opens30();
      Spreads32();
    case 33 =>
      r, c := 4, 2;
      Opens30();
      Spreads32();
    case 34 =>
      r, c := 5, 1;
      Opens30();
      Numbered34();
    case 35 =>
      r, c := 4, 1;
      Opens35();
      Numbered34();
    case 36 =>
      r, c := 3, 3;
      Opens35();
      Spreads36();
    case 37 =>
      r, c := 3, 2;
      Opens35();
      Spreads36();
    case 38 =>
      r, c := 3, 1;
      Opens35();
      Numbered34();
    case 39 =>
      r, c := 2, 3;
      Opens35();
      Spreads39();
    case 40 =>
      r, c := 2, 4;
      Opens40();
      Spreads39();
    case 41 =>
      r, c := 2, 5;
      Opens40();
      Spreads41();
    case 42 =>
      r, c := 2, 6;
      Opens40();
      Numbered34();
    case 43 =>
      r, c := 1, 6;
      Opens40();
      Spreads41();
  }

  /** Each turn opens one cell, and offers what the table says. */
  lemma AllRows(t: nat) returns (r: nat, c: nat)
    requires t < TURNS
    ensures Row(t, r, c)
  {
    if t < 22 {
      r, c := EarlyRows(t);
    } else {
      r, c := LateRows(t);
    }
  }

  lemma Linked0(t: nat)
    requires 0 <= t < 5
    ensures Linked(t)
  {
  }

  lemma Linked5(t: nat)
    requires 5 <= t < 10
    ensures Linked(t)
  {
  }

  lemma Linked10(t: nat)
    requires 10 <= t < 15
    ensures Linked(t)
  {
  }

  lemma Linked15(t: nat)
    requires 15 <= t < 20
    ensures Linked(t)
  {
  }

  lemma Linked20(t: nat)
    requires 20 <= t < 25
    ensures Linked(t)
  {
  }

  lemma Linked25(t: nat)
    requires 25 <= t < 30
    ensures Linked(t)
  {
  }

  lemma Linked30(t: nat)
    requires 30 <= t < 35
    ensures Linked(t)
  {
  }

  lemma Linked35(t: nat)
    requires 35 <= t < 40
    ensures Linked(t)
  {
  }

  lemma Linked40(t: nat)
    requires 40 <= t < 44
    ensures Linked(t)
  {
  }

  lemma AllLinked(t: nat)
    requires t < TURNS
    ensures Linked(t)
  {
    if t < 5 {
      Linked0(t);
    } else if t < 10 {
      Linked5(t);
    } else if t < 15 {
      Linked10(t);
    } else if t < 20 {
      Linked15(t);
    } else if t < 25 {
      Linked20(t);
    } else if t < 30 {
      Linked25(t);
    } else if t < 35 {
      Linked30(t);
    } else if t < 40 {
      Linked35(t);
    } else {
      Linked40(t);
    }
  }
}
