/** Byte arrays: slice assignment, little-endian fields, fixed-width text. */
module Bytearray {
  import opened Bits

  type Bytes = seq<Byte>

  /** buf[a:b] = patch, with the slice bounds clipped to the buffer. */
  function Splice(buf: Bytes, a: nat, b: nat, patch: Bytes): Bytes
    requires a <= b
  {
    var lo := if a <= |buf| then a else |buf|;
    var hi := if b <= |buf| then b else |buf|;
    buf[..lo] + patch + buf[hi..]
  }

  /** Bytes laid over a buffer that is long enough. */
  function Overwrite(buf: Bytes, at: nat, patch: Bytes): (r: Bytes)
    requires at + |patch| <= |buf|
    ensures |r| == |buf|
    ensures forall i :: 0 <= i < |buf| ==> r[i] == if at <= i < at + |patch| then patch[i - at] else buf[i]
  {
    buf[..at] + patch + buf[at + |patch|..]
  }

  lemma SpliceFits(buf: Bytes, at: nat, patch: Bytes)
    ensures at + |patch| <= |buf| ==> Splice(buf, at, at + |patch|, patch) == Overwrite(buf, at, patch)
    ensures |Splice(buf, at, at + |patch|, patch)| ==
            if at + |patch| <= |buf| then |buf| else if at <= |buf| then at + |patch| else |buf| + |patch|
  {
  }

  lemma OverwriteElsewhere(buf: Bytes, at: nat, patch: Bytes, lo: nat, hi: nat)
    requires at + |patch| <= |buf| && lo <= hi <= |buf| && (hi <= at || at + |patch| <= lo)
    ensures Overwrite(buf, at, patch)[lo..hi] == buf[lo..hi]
  {
  }

  lemma OverwriteHere(buf: Bytes, at: nat, patch: Bytes)
    requires at + |patch| <= |buf|
    ensures Overwrite(buf, at, patch)[at..at + |patch|] == patch
  {
  }

  lemma OverwriteCommutes(buf: Bytes, a: nat, x: Bytes, b: nat, y: Bytes)
    requires a + |x| <= |buf| && b + |y| <= |buf| && (a + |x| <= b || b + |y| <= a)
    ensures Overwrite(Overwrite(buf, a, x), b, y) == Overwrite(Overwrite(buf, b, y), a, x)
  {
  }

  // ------------------------------------------------ edits of a flash image

  datatype Edit = Edit(at: nat, bytes: Bytes)

  predicate Fit(es: seq<Edit>, n: nat)
  {
    forall e :: e in es ==> e.at + |e.bytes| <= n
  }

  /** Every edit lies in [lo, hi). */
  predicate Inside(es: seq<Edit>, lo: nat, hi: nat)
  {
    forall e :: e in es ==> lo <= e.at && e.at + |e.bytes| <= hi
  }

  function Apply(buf: Bytes, es: seq<Edit>): (r: Bytes)
    requires Fit(es, |buf|)
    ensures |r| == |buf|
  {
    if es == [] then buf
    else Overwrite(Apply(buf, es[..|es| - 1]), es[|es| - 1].at, es[|es| - 1].bytes)
  }

  /** Edits leave everything outside their window alone. */
  lemma {:induction false} ApplyOutside(buf: Bytes, es: seq<Edit>, lo: nat, hi: nat, i: nat)
    requires Fit(es, |buf|) && Inside(es, lo, hi) && i < |buf| && !(lo <= i < hi)
    ensures Apply(buf, es)[i] == buf[i]
    decreases |es|
  {
    if es != [] {
      assert es[|es| - 1] in es;
      ApplyOutside(buf, es[..|es| - 1], lo, hi, i);
    }
  }

  /** Inside their window the result does not depend on anything outside it. */
  lemma {:induction false} ApplyLocal(buf: Bytes, other: Bytes, es: seq<Edit>, lo: nat, hi: nat, i: nat)
    requires |buf| == |other| && Fit(es, |buf|) && Inside(es, lo, hi) && lo <= i < hi && i < |buf|
    requires buf[i] == other[i]
    ensures Apply(buf, es)[i] == Apply(other, es)[i]
    decreases |es|
  {
    if es != [] {
      ApplyLocal(buf, other, es[..|es| - 1], lo, hi, i);
    }
  }

  /** Edits of disjoint windows commute. */
  lemma EditsCommute(buf: Bytes, xs: seq<Edit>, a: nat, b: nat, ys: seq<Edit>, c: nat, d: nat)
    requires Fit(xs, |buf|) && Fit(ys, |buf|) && Inside(xs, a, b) && Inside(ys, c, d) && (b <= c || d <= a)
    ensures Apply(Apply(buf, xs), ys) == Apply(Apply(buf, ys), xs)
  {
    var l, r := Apply(Apply(buf, xs), ys), Apply(Apply(buf, ys), xs);
    forall i | 0 <= i < |buf|
      ensures l[i] == r[i]
    {
      if a <= i < b {
        ApplyOutside(Apply(buf, xs), ys, c, d, i);
        ApplyOutside(buf, ys, c, d, i);
        ApplyLocal(buf, Apply(buf, ys), xs, a, b, i);
      } else {
        ApplyOutside(buf, xs, a, b, i);
        ApplyOutside(Apply(buf, ys), xs, a, b, i);
        if c <= i < d {
          ApplyLocal(buf, Apply(buf, xs), ys, c, d, i);
        } else {
          ApplyOutside(Apply(buf, xs), ys, c, d, i);
          ApplyOutside(buf, ys, c, d, i);
        }
      }
    }
  }

  lemma ApplyOne(buf: Bytes, at: nat, bytes: Bytes)
    requires at + |bytes| <= |buf|
    ensures Apply(buf, [Edit(at, bytes)]) == Overwrite(buf, at, bytes)
  {
    assert [Edit(at, bytes)][..0] == [];
  }

  lemma ApplyMore(buf: Bytes, es: seq<Edit>, e: Edit)
    requires Fit(es + [e], |buf|)
    ensures Fit(es, |buf|) && e.at + |e.bytes| <= |buf|
    ensures Apply(buf, es + [e]) == Overwrite(Apply(buf, es), e.at, e.bytes)
  {
    assert e in es + [e];
    assert forall f :: f in es ==> f in es + [e];
    assert (es + [e])[..|es|] == es;
  }

  function TwoEdits(a: nat, x: Bytes, b: nat, y: Bytes): seq<Edit>
  {
    [Edit(a, x), Edit(b, y)]
  }

  function OneEdit(a: nat, x: Bytes): seq<Edit>
  {
    [Edit(a, x)]
  }

  lemma OneSplice(buf: Bytes, a: nat, x: Bytes)
    requires a + |x| <= |buf|
    ensures Splice(buf, a, a + |x|, x) == Apply(buf, OneEdit(a, x))
  {
    SpliceFits(buf, a, x);
    ApplyOne(buf, a, x);
  }

  lemma ApplyTwo(buf: Bytes, a: nat, x: Bytes, b: nat, y: Bytes, mid: Bytes)
    requires a + |x| <= |buf| && b + |y| <= |buf| && mid == Overwrite(buf, a, x)
    ensures Apply(buf, TwoEdits(a, x, b, y)) == Overwrite(mid, b, y)
  {
    ApplyOne(buf, a, x);
    assert TwoEdits(a, x, b, y) == [Edit(a, x)] + [Edit(b, y)];
    ApplyMore(buf, [Edit(a, x)], Edit(b, y));
  }

  lemma TwoSplices(buf: Bytes, a: nat, x: Bytes, b: nat, y: Bytes, mid: Bytes)
    requires a + |x| <= |buf| && b + |y| <= |buf| && mid == Splice(buf, a, a + |x|, x)
    ensures Splice(mid, b, b + |y|, y) == Apply(buf, TwoEdits(a, x, b, y))
  {
    SpliceFits(buf, a, x);
    assert mid == Overwrite(buf, a, x);
    SpliceFits(mid, b, y);
    ApplyTwo(buf, a, x, b, y, mid);
  }

  // ------------------------------------------------ fields

  function Le(n: nat, width: nat): (r: Bytes)
    ensures |r| == width
  {
    if width == 0 then [] else [n % 256] + Le(n / 256, width - 1)
  }

  function UnLe(bs: Bytes): nat
  {
    if bs == [] then 0 else bs[0] + 256 * UnLe(bs[1..])
  }

  /** The numbers of two and of four bytes at a place, low byte first. */
  function Word16(bs: Bytes, at: nat): (n: nat)
    requires at + 2 <= |bs|
    ensures n < 0x1_0000
  {
    bs[at] as nat + 0x100 * (bs[at + 1] as nat)
  }

  function Word32(bs: Bytes, at: nat): (n: nat)
    requires at + 4 <= |bs|
    ensures n < WORD32
  {
    Word16(bs, at) + 0x1_0000 * Word16(bs, at + 2)
  }

  lemma FieldOf16(bs: Bytes, at: nat)
    requires at + 2 <= |bs|
    ensures UnLe(bs[at..at + 2]) == Word16(bs, at)
  {
    var f := bs[at..at + 2];
    assert f[1..][1..] == [];
    assert UnLe(f[1..]) == f[1];
  }

  lemma FieldOf32(bs: Bytes, at: nat)
    requires at + 4 <= |bs|
    ensures UnLe(bs[at..at + 4]) == Word32(bs, at)
  {
    var f := bs[at..at + 4];
    assert f[1..][1..] == bs[at + 2..at + 4];
    FieldOf16(bs, at + 2);
    assert UnLe(f) == f[0] + 256 * UnLe(f[1..]) && UnLe(f[1..]) == f[1] + 256 * UnLe(f[1..][1..]);
  }

  lemma {:induction false} LeRoundTrip(n: nat, width: nat)
    requires n < Pow2(8 * width)
    ensures UnLe(Le(n, width)) == n
  {
    if width > 0 {
      assert Pow2(8 * width) == 256 * Pow2(8 * (width - 1)) by { EightBits(8 * (width - 1)); }
      LeRoundTrip(n / 256, width - 1);
      assert Le(n, width)[1..] == Le(n / 256, width - 1);
    }
  }

  lemma {:induction false} UnLeRoundTrip(bs: Bytes)
    ensures Le(UnLe(bs), |bs|) == bs
  {
    if bs != [] {
      UnLeRoundTrip(bs[1..]);
      assert UnLe(bs) % 256 == bs[0] && UnLe(bs) / 256 == UnLe(bs[1..]);
      assert bs == [bs[0]] + bs[1..];
    }
  }

  lemma EightBits(k: nat)
    ensures Pow2(k + 8) == 256 * Pow2(k)
  {
    assert Pow2(k + 8) == 2 * Pow2(k + 7) == 4 * Pow2(k + 6) == 8 * Pow2(k + 5) == 16 * Pow2(k + 4);
    assert Pow2(k + 4) == 2 * Pow2(k + 3) == 4 * Pow2(k + 2) == 8 * Pow2(k + 1) == 16 * Pow2(k);
  }

  lemma FieldWidths()
    ensures Pow2(8) == 0x100 && Pow2(16) == 0x1_0000 && Pow2(32) == WORD32
  {
    EightBits(0);
    EightBits(8);
    EightBits(16);
    EightBits(24);
  }

  lemma Three(s: Bytes, a: Bytes, b: Bytes, c: Bytes)
    requires s == a + b + c
    ensures s[..|a|] == a && s[|a|..|a| + |b|] == b && s[|a| + |b|..] == c
  {
  }

  lemma SubSlice(s: Bytes, lo: nat, t: Bytes, a: nat, b: nat)
    requires lo + |t| <= |s| && s[lo..lo + |t|] == t && a <= b <= |t|
    ensures s[lo + a..lo + b] == t[a..b]
  {
    forall i | a <= i < b
      ensures s[lo + i] == t[i]
    {
      assert s[lo..lo + |t|][i] == t[i];
    }
  }

  /** A field of the given width, cut to it and padded with zero bytes. */
  function Padded(bs: Bytes, width: nat): (r: Bytes)
    ensures |r| == width
  {
    if |bs| >= width then bs[..width] else bs + seq(width - |bs|, i => 0)
  }

  /** The bytes before the first zero. */
  function UpToNul(bs: Bytes): (r: Bytes)
    ensures |r| <= |bs|
  {
    if bs == [] || bs[0] == 0 then [] else [bs[0]] + UpToNul(bs[1..])
  }

  predicate NulFree(bs: Bytes)
  {
    forall i :: 0 <= i < |bs| ==> bs[i] != 0
  }

  /** Zero padding does not change where text ends. */
  lemma {:induction false} UpToNulPadded(bs: Bytes, width: nat)
    requires |bs| < width
    ensures UpToNul(Padded(bs, width)) == UpToNul(bs)
    decreases |bs|
  {
    if bs == [] {
      assert Padded(bs, width)[0] == 0;
    } else {
      assert Padded(bs, width)[1..] == Padded(bs[1..], width - 1);
      UpToNulPadded(bs[1..], width - 1);
    }
  }

  lemma {:induction false} UpToNulAll(bs: Bytes)
    requires NulFree(bs)
    ensures UpToNul(bs) == bs
  {
    if bs != [] {
      UpToNulAll(bs[1..]);
      assert bs == [bs[0]] + bs[1..];
    }
  }
}
