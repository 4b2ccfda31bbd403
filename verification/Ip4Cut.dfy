/** IPv4 texts that a length limit cuts off: when the rest of the text makes no difference. */
module Ip4Cut {
  import opened Text
  import opened Ip4
  import Bits

  /** The value of a number, however large. */
  function TrueValue(p: string, last: bool): nat
    requires IsNumber(p, last)
  {
    if Marked(p) then HexVal(p[2..]) else DecVal(p)
  }

  predicate NumberAt(ps: seq<string>, i: nat)
    requires i < |ps|
  {
    IsNumber(ps[i], i == |ps| - 1)
  }

  function ValueAt(ps: seq<string>, i: nat): nat
    requires i < |ps| && NumberAt(ps, i)
  {
    TrueValue(ps[i], i == |ps| - 1)
  }

  /** One to four numbers, none of them too large for its place. */
  predicate NumbersFit(ps: seq<string>) {
    && 1 <= |ps| <= 4
    && (forall i :: 0 <= i < |ps| ==> NumberAt(ps, i) && ValueAt(ps, i) < if |ps| == 1 then U32 else 0x100)
  }

  // ----- the value of a cut number -----

  lemma LastDigit(base: nat, w: string)
    requires w != "" && AllHex(w)
    ensures Fold(base, 0, w) == Fold(base, 0, w[..|w| - 1]) * base + Digit(w[|w| - 1])
  {
    var init, c := w[..|w| - 1], w[|w| - 1];
    assert w == init + [c];
    FoldAppend(base, 0, init, c);
  }

  lemma Grows(v: nat, base: nat, d: nat)
    requires base > 1
    ensures v <= v * base + d && (v * base + d > 0 ==> v < v * base + d)
  {
    Bits.MulLe(2, base, v);
  }

  /** Cutting digits off makes a number smaller, unless it is zero. */
  lemma {:induction false} FoldPrefix(base: nat, w: string, k: nat)
    requires base > 1 && AllHex(w) && k <= |w|
    ensures Fold(base, 0, w[..k]) <= Fold(base, 0, w)
    ensures k < |w| && Fold(base, 0, w) > 0 ==> Fold(base, 0, w[..k]) < Fold(base, 0, w)
    decreases |w|
  {
    if k == |w| {
      assert w[..k] == w;
    } else {
      var init := w[..|w| - 1];
      LastDigit(base, w);
      Grows(Fold(base, 0, init), base, Digit(w[|w| - 1]));
      FoldPrefix(base, init, k);
      assert init[..k] == w[..k];
    }
  }

  lemma NumberPrefix(p: string, last: bool, q: string)
    requires IsNumber(p, last) && q <= p && IsNumber(q, true)
    ensures TrueValue(q, true) <= TrueValue(p, last)
    ensures q != p && TrueValue(p, last) > 0 ==> TrueValue(q, true) < TrueValue(p, last)
  {
    var k := |q|;
    assert q == p[..k];
    assert k == |p| ==> q == p;
    if Marked(p) {
      if k >= 2 {
        assert q[2..] == p[2..][..k - 2];
        FoldPrefix(16, p[2..], k - 2);
      } else {
        ZeroDigit(q);
      }
    } else {
      DecimalUnmarked(q);
      FoldPrefix(10, p, k);
    }
  }

  lemma ZeroDigit(q: string)
    requires q == "0"
    ensures TrueValue(q, true) == 0
  {
    assert q[1..] == "" && Digit('0') == 0;
    assert Fold(10, 0, q) == Fold(10, 0, q[1..]);
  }

  // ----- the pieces of a cut text -----

  /** `us` are the first of the pieces `ps`, the last of them possibly cut. */
  predicate FirstPieces(us: seq<string>, ps: seq<string>) {
    1 <= |us| <= |ps| && us[..|us| - 1] == ps[..|us| - 1] && us[|us| - 1] <= ps[|us| - 1]
  }

  lemma SplitFirst(p: string, more: string)
    requires '.' !in p
    ensures Split(p + "." + more) == [p] + Split(more)
  {
    var s := p + "." + more;
    assert s == p + ("." + more);
    IndexOfConcat(p, '.', "." + more);
    assert s[..|p|] == p && s[|p| + 1..] == more;
    SplitAt(s, |p|);
  }

  lemma SplitAt(s: string, i: nat)
    requires i == IndexOf(s, '.') < |s|
    ensures Split(s) == [s[..i]] + Split(s[i + 1..])
  {}

  lemma CutParts(t: string, u: string, i: nat)
    requires u <= t && i < |u| && t[i] == '.'
    ensures t == t[..i] + "." + t[i + 1..] && u == t[..i] + "." + u[i + 1..]
    ensures u[i + 1..] <= t[i + 1..] && (u != t ==> u[i + 1..] != t[i + 1..])
  {}

  /** A cut behind the first dot keeps the first piece. */
  lemma PrefixStep(p: string, more: string, cut: string)
    requires '.' !in p && FirstPieces(Split(cut), Split(more))
    ensures FirstPieces(Split(p + "." + cut), Split(p + "." + more))
    ensures Split(cut) != Split(more) ==> Split(p + "." + cut) != Split(p + "." + more)
  {
    SplitFirst(p, more);
    SplitFirst(p, cut);
    PiecesCons(p, Split(more), Split(cut));
  }

  /** A cut in front of the first dot leaves a part of the first piece. */
  lemma PrefixFirst(t: string, u: string)
    requires u <= t && |u| <= IndexOf(t, '.')
    ensures FirstPieces(Split(u), Split(t)) && (u != t ==> Split(u) != Split(t))
  {
    assert forall j :: 0 <= j < |u| ==> u[j] == t[j];
    assert IndexOf(u, '.') == |u|;
    assert Split(u) == [u];
    assert u <= Split(t)[0];
  }

  lemma {:induction false} SplitPrefix(t: string, u: string)
    requires u <= t
    ensures FirstPieces(Split(u), Split(t)) && (u != t ==> Split(u) != Split(t))
    decreases |t|
  {
    var i := IndexOf(t, '.');
    if |u| <= i {
      PrefixFirst(t, u);
    } else {
      var p, more, cut := t[..i], t[i + 1..], u[i + 1..];
      CutParts(t, u, i);
      SplitPrefix(more, cut);
      PrefixStep(p, more, cut);
    }
  }

  lemma PiecesCons(p: string, ps: seq<string>, us: seq<string>)
    requires FirstPieces(us, ps)
    ensures FirstPieces([p] + us, [p] + ps)
    ensures us != ps ==> [p] + us != [p] + ps
  {
    assert ([p] + us)[..|us|] == [p] + us[..|us| - 1];
    assert ([p] + ps)[..|us|] == [p] + ps[..|us| - 1];
    assert ([p] + us)[1..] == us && ([p] + ps)[1..] == ps;
  }

  // ----- the address of a cut text -----

  /** What is cut off is zero: the last number seen is a number, and all numbers from it on are 0. */
  predicate ZeroFrom(ps: seq<string>, us: seq<string>)
    requires NumbersFit(ps) && us != []
  {
    && IsNumber(us[|us| - 1], true)
    && forall i :: |us| - 1 <= i < |ps| ==> NumberAt(ps, i) && ValueAt(ps, i) == 0
  }

  lemma OctetPieces(ps: seq<string>, n: nat)
    requires NumbersFit(ps) && n < |ps|
    ensures forall i :: 0 <= i < n ==> IsOctet(ps[i]) && NumberAt(ps, i) && OctetValue(ps[i]) == ValueAt(ps, i)
  {
    forall i | 0 <= i < n ensures IsOctet(ps[i]) && NumberAt(ps, i) && OctetValue(ps[i]) == ValueAt(ps, i) {
      assert NumberAt(ps, i);
      SmallMod(ValueAt(ps, i), U32);
    }
  }

  /** The address of numbers that fit, as bytes. */
  lemma WholeAddress(ps: seq<string>)
    requires NumbersFit(ps)
    ensures var r := ReferenceFrom([], ps);
            && r.Parsed? && |r.bytes| == 4 && NumberAt(ps, |ps| - 1)
            && (|ps| == 1 ==> r.bytes == FromUint32(ValueAt(ps, 0)))
            && (|ps| > 1 ==> r.bytes[3] == ValueAt(ps, |ps| - 1)
                             && (forall i :: 0 <= i < |ps| - 1 ==> NumberAt(ps, i) && r.bytes[i] == ValueAt(ps, i))
                             && forall i :: |ps| - 1 <= i < 3 ==> r.bytes[i] == 0)
  {
    var n := |ps| - 1;
    OctetPieces(ps, n);
    assert NumberAt(ps, n);
    SmallMod(ValueAt(ps, n), U32);
    assert Octets(ps[..n]) == [] + Octets(ps[..n]);
    assert forall i :: 0 <= i < n ==> ps[..n][i] == ps[i];
  }

  /** The address of the numbers in front of the cut and the number `v` that the cut leaves. */
  lemma CutAddress(ps: seq<string>, us: seq<string>)
    requires NumbersFit(ps) && 1 <= |us| <= |ps| && us[..|us| - 1] == ps[..|us| - 1]
    requires IsNumber(us[|us| - 1], true) && TrueValue(us[|us| - 1], true) < if |ps| == 1 then U32 else 0x100
    ensures var v, r := TrueValue(us[|us| - 1], true), ReferenceFrom([], us);
            && r.Parsed? && |r.bytes| == 4
            && (|us| == 1 ==> r.bytes == FromUint32(v))
            && (|us| > 1 ==> r.bytes[3] == v
                             && (forall i :: 0 <= i < |us| - 1 ==> NumberAt(ps, i) && r.bytes[i] == ValueAt(ps, i))
                             && forall i :: |us| - 1 <= i < 3 ==> r.bytes[i] == 0)
  {
    var n := |us| - 1;
    OctetPieces(ps, n);
    SmallMod(TrueValue(us[n], true), U32);
    assert forall i :: 0 <= i < n ==> us[i] == us[..n][i] == ps[i];
    assert Octets(us[..n]) == [] + Octets(us[..n]);
  }

  lemma SmallAddress(v: nat)
    requires v < 0x100
    ensures FromUint32(v) == [0, 0, 0, v]
  {}

  lemma UintInjective(v: nat, u: nat)
    requires v < U32 && u < U32
    ensures FromUint32(v) == FromUint32(u) <==> v == u
  {
    FromToUint32(v);
    FromToUint32(u);
  }

  /** The cut falls into the last number. */
  lemma CutLast(ps: seq<string>, us: seq<string>)
    requires NumbersFit(ps) && FirstPieces(us, ps) && |us| == |ps| && us != ps && IsNumber(us[|us| - 1], true)
    ensures ReferenceFrom([], us) == ReferenceFrom([], ps) <==> ZeroFrom(ps, us)
  {
    var n := |ps| - 1;
    assert us == us[..n] + [us[n]] && ps == ps[..n] + [ps[n]];
    assert NumberAt(ps, n);
    NumberPrefix(ps[n], true, us[n]);
    WholeAddress(ps);
    CutAddress(ps, us);
    var v, u := TrueValue(us[n], true), ValueAt(ps, n);
    if n == 0 {
      UintInjective(v, u);
    } else {
      var r, q := ReferenceFrom([], us).bytes, ReferenceFrom([], ps).bytes;
      if u == 0 { assert forall i :: 0 <= i < 4 ==> r[i] == q[i]; }
    }
  }

  /** The cut falls into an earlier number. */
  lemma CutEarly(ps: seq<string>, us: seq<string>)
    requires NumbersFit(ps) && FirstPieces(us, ps) && |us| < |ps| && IsNumber(us[|us| - 1], true)
    ensures ReferenceFrom([], us) == ReferenceFrom([], ps) <==> ZeroFrom(ps, us)
  {
    var j := |us| - 1;
    assert NumberAt(ps, j);
    NumberPrefix(ps[j], false, us[j]);
    WholeAddress(ps);
    CutAddress(ps, us);
    var v := TrueValue(us[j], true);
    SmallAddress(v);
    var r, q := ReferenceFrom([], us).bytes, ReferenceFrom([], ps).bytes;
    assert q[j] == ValueAt(ps, j) && r[3] == v && r[j] == 0;
    if r == q {
      assert v == 0;
      forall i | j <= i < |ps| ensures NumberAt(ps, i) && ValueAt(ps, i) == 0 {
        assert r[i] == 0 && q[if i == |ps| - 1 then 3 else i] == ValueAt(ps, i);
      }
    }
    if ZeroFrom(ps, us) {
      assert forall i :: 0 <= i < 4 ==> r[i] == q[i];
    }
  }

  /** For texts whose numbers fit: cutting changes nothing exactly when all that is cut is zero. */
  lemma CutExactly(t: string, n: nat)
    requires n < |t| && NumbersFit(Split(t))
    ensures Parse(t[..n]) == Parse(t) <==> ZeroFrom(Split(t), Split(t[..n]))
  {
    var ps, us := Split(t), Split(t[..n]);
    ParserMeetsReference(t);
    ParserMeetsReference(t[..n]);
    SplitPrefix(t, t[..n]);
    PiecesExactly(Split(t), Split(t[..n]));
  }

  lemma PiecesExactly(ps: seq<string>, us: seq<string>)
    requires NumbersFit(ps) && FirstPieces(us, ps) && us != ps
    ensures ReferenceFrom([], us) == ReferenceFrom([], ps) <==> ZeroFrom(ps, us)
  {
    if !IsNumber(us[|us| - 1], true) {
      WholeAddress(ps);
    } else if |us| == |ps| {
      CutLast(ps, us);
    } else {
      CutEarly(ps, us);
    }
  }
}
