/** What a run of command bytes leaves the display controller in. */
module PanelRuns {
  import opened Bits
  import opened Panel

  /** Byte i is a command, and not the argument of the contrast command before it. */
  predicate Effective(bs: seq<Byte>, i: nat)
    requires i < |bs|
  {
    i == 0 || bs[i - 1] != 0x81 || !Effective(bs, i - 1)
  }

  /** A switch after the run: it was last turned on, or was on before and not turned off. */
  ghost predicate Stands(bs: seq<Byte>, before: bool, on: Byte, offs: set<Byte>)
  {
    || (before && forall j :: 0 <= j < |bs| && Effective(bs, j) ==> bs[j] !in offs)
    || exists i :: 0 <= i < |bs| && Effective(bs, i) && bs[i] == on &&
                   forall j :: i < j < |bs| && Effective(bs, j) ==> bs[j] !in offs
  }

  lemma EffectiveBefore(bs: seq<Byte>, b: Byte, i: nat)
    requires i < |bs|
    ensures Effective(bs + [b], i) == Effective(bs, i)
  {
    if i > 0 {
      EffectiveBefore(bs, b, i - 1);
    }
  }

  /** A listening controller: selected, with commands on the wire and none half given. */
  ghost predicate Listens(s: Lcd) { s.Valid() && s.selected && !s.a0 && !s.expectContrast }

  /** After a run the next byte is the contrast's exactly if the last one was its command. */
  lemma {:induction false} Expecting(s: Lcd, bs: seq<Byte>)
    requires Listens(s)
    ensures XferAll(s, bs).expectContrast <==> bs != [] && bs[|bs| - 1] == 0x81 && Effective(bs, |bs| - 1)
    decreases |bs|
  {
    if bs != [] {
      var front := bs[..|bs| - 1];
      Expecting(s, front);
      if front != [] {
        EffectiveBefore(front, bs[|bs| - 1], |front| - 1);
        assert front + [bs[|bs| - 1]] == bs;
      }
    }
  }

  /** The bytes of a run are as effective with one more behind them. */
  ghost predicate Prefix(bs: seq<Byte>, all: seq<Byte>)
  {
    |bs| < |all| && forall i :: 0 <= i < |bs| ==> all[i] == bs[i] && Effective(all, i) == Effective(bs, i)
  }

  lemma StandsNext(bs: seq<Byte>, b: Byte, before: bool, on: Byte, offs: set<Byte>)
    requires on !in offs
    ensures Stands(bs + [b], before, on, offs) <==>
            if Effective(bs + [b], |bs|) && b == on then true
            else if Effective(bs + [b], |bs|) && b in offs then false
            else Stands(bs, before, on, offs)
  {
    var all := bs + [b];
    forall i | 0 <= i < |bs|
      ensures Effective(all, i) == Effective(bs, i) && all[i] == bs[i]
    {
      EffectiveBefore(bs, b, i);
    }
    var does := Effective(all, |bs|);
    if does && b == on {
      assert all[|bs|] == on;
    } else if does && b in offs {
      assert all[|bs|] in offs;
    } else if Stands(bs, before, on, offs) {
      StandsStill(bs, all, before, on, offs);
    } else if Stands(all, before, on, offs) {
      StoodBefore(bs, all, before, on, offs);
    }
  }

  lemma StandsStill(bs: seq<Byte>, all: seq<Byte>, before: bool, on: Byte, offs: set<Byte>)
    requires Prefix(bs, all) && |all| == |bs| + 1 && Stands(bs, before, on, offs)
    requires !(Effective(all, |bs|) && all[|bs|] in offs)
    ensures Stands(all, before, on, offs)
  {
    if before && forall j :: 0 <= j < |bs| && Effective(bs, j) ==> bs[j] !in offs {
      forall j | 0 <= j < |all| && Effective(all, j)
        ensures all[j] !in offs
      {
        assert j < |bs| ==> Effective(bs, j);
      }
    } else {
      var i :| 0 <= i < |bs| && Effective(bs, i) && bs[i] == on &&
               forall j :: i < j < |bs| && Effective(bs, j) ==> bs[j] !in offs;
      forall j | i < j < |all| && Effective(all, j)
        ensures all[j] !in offs
      {
        assert j < |bs| ==> Effective(bs, j);
      }
      assert Effective(all, i) && all[i] == on;
    }
  }

  lemma StoodBefore(bs: seq<Byte>, all: seq<Byte>, before: bool, on: Byte, offs: set<Byte>)
    requires Prefix(bs, all) && |all| == |bs| + 1 && Stands(all, before, on, offs)
    requires !(Effective(all, |bs|) && all[|bs|] == on)
    ensures Stands(bs, before, on, offs)
  {
    if before && forall j :: 0 <= j < |all| && Effective(all, j) ==> all[j] !in offs {
      forall j | 0 <= j < |bs| && Effective(bs, j)
        ensures bs[j] !in offs
      {
        assert Effective(all, j);
      }
    } else {
      var i :| 0 <= i < |all| && Effective(all, i) && all[i] == on &&
               forall j :: i < j < |all| && Effective(all, j) ==> all[j] !in offs;
      forall j | i < j < |bs| && Effective(bs, j)
        ensures bs[j] !in offs
      {
        assert Effective(all, j);
      }
      assert Effective(bs, i) && bs[i] == on;
    }
  }

  /** Each switch is as its last command left it: inversion by A7 or A6, the display by AF or AE, the two scan
      directions by A1 or A0 and C8 or C0; E2 turns the first two off. */
  lemma {:induction false} Switches(s: Lcd, bs: seq<Byte>)
    requires Listens(s)
    ensures var r := XferAll(s, bs);
            && r.invert == Stands(bs, s.invert, 0xa7, {0xa6, 0xe2})
            && r.displayOn == Stands(bs, s.displayOn, 0xaf, {0xae, 0xe2})
            && r.segReverse == Stands(bs, s.segReverse, 0xa1, {0xa0})
            && r.comReverse == Stands(bs, s.comReverse, 0xc8, {0xc0})
            && r.gram == s.gram
    decreases |bs|
  {
    if bs != [] {
      var front, b := bs[..|bs| - 1], bs[|bs| - 1];
      Switches(s, front);
      Expecting(s, front);
      EffectiveLast(front, b);
      assert front + [b] == bs;
      StandsNext(front, b, s.invert, 0xa7, {0xa6, 0xe2});
      StandsNext(front, b, s.displayOn, 0xaf, {0xae, 0xe2});
      StandsNext(front, b, s.segReverse, 0xa1, {0xa0});
      StandsNext(front, b, s.comReverse, 0xc8, {0xc0});
      OneCommand(XferAll(s, front), b);
    }
  }

  lemma EffectiveLast(bs: seq<Byte>, b: Byte)
    ensures Effective(bs + [b], |bs|) <==> !(bs != [] && bs[|bs| - 1] == 0x81 && Effective(bs, |bs| - 1))
  {
    if bs != [] {
      EffectiveBefore(bs, b, |bs| - 1);
    }
  }

  lemma OneCommand(s: Lcd, b: Byte)
    requires s.Valid() && s.selected && !s.a0
    ensures var r := Xfer(s, b);
            var does := !s.expectContrast;
            && r.gram == s.gram
            && r.invert ==
               (if does && b == 0xa7 then true else if does && (b == 0xa6 || b == 0xe2) then false else s.invert)
            && r.displayOn ==
               (if does && b == 0xaf then true else if does && (b == 0xae || b == 0xe2) then false else s.displayOn)
            && r.segReverse == (if does && b == 0xa1 then true else if does && b == 0xa0 then false else s.segReverse)
            && r.comReverse == (if does && b == 0xc8 then true else if does && b == 0xc0 then false else s.comReverse)
  {
  }

  /** Where the next data byte goes: page by B0 to B7, the column's high half by 10 to 1F, its low half by 00 to 0F. */
  lemma Addressing(s: Lcd, b: Byte)
    requires Listens(s)
    ensures 0xb0 <= b <= 0xb7 ==> Xfer(s, b) == s.(page := b - 0xb0)
    ensures 0x10 <= b <= 0x1f ==> Xfer(s, b) == s.(col := 16 * (b - 0x10) + s.col % 16)
    ensures b <= 0x0f ==> Xfer(s, b) == s.(col := s.col - s.col % 16 + b)
  {
  }

  /** A panel that is not selected takes nothing. */
  lemma {:induction false} Deselected(s: Lcd, bs: seq<Byte>)
    requires s.Valid() && !s.selected
    ensures XferAll(s, bs) == s
    decreases |bs|
  {
    if bs != [] {
      Deselected(s, bs[..|bs| - 1]);
    }
  }

  /** The contrast is the byte behind its command, whatever that byte is. */
  lemma ContrastFollows(s: Lcd, contrast: Byte)
    requires Listens(s)
    ensures Xfer(Xfer(s, 0x81), contrast) == s.(contrast := contrast) && Xfer(s, 0xe2).contrast == 0
  {
  }
}
