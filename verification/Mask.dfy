/** Masks on addresses of any width: bytes, bits and big-endian numbers. */
module Mask {
  import opened Bits
  import Text

  type byte = Text.byte

  lemma Pow2Eight()
    ensures Pow2(8) == 0x100
  {
    assert Pow2(4) == 16;
  }

  /** Bit `i` of an address, the most significant bit of the first byte being bit 0. */
  function GetBit(x: seq<byte>, i: nat): (b: nat)
    requires i < 8 * |x|
    ensures b < 2
  {
    Bit(x[i / 8], 7 - i % 8)
  }

  /** How many of the first `len` bits of an address fall into byte `i`. */
  function Keep(len: nat, i: nat): (k: nat)
    ensures k <= 8
  {
    if len >= 8 * (i + 1) then 8 else if len > 8 * i then len - 8 * i else 0
  }

  function MaskByte(x: byte, keep: nat): (r: byte)
    requires keep <= 8
  {
    And(x, HighMask(8, 8 - keep))
  }

  /** The address with every bit from `len` on cleared. */
  function Masked(x: seq<byte>, len: nat): (r: seq<byte>)
    ensures |r| == |x|
  {
    seq(|x|, i requires 0 <= i < |x| => MaskByte(x[i], Keep(len, i)))
  }

  lemma MaskByteExtremes(x: byte)
    ensures MaskByte(x, 8) == x && MaskByte(x, 0) == 0
  {
    Pow2Eight();
    AndHighMask(x, 8, 0);
    AndHighMask(x, 8, 8);
  }

  // ----- bits -----

  lemma MaskByteBit(b: byte, keep: nat, k: nat)
    requires keep <= 8 && k < 8
    ensures Bit(MaskByte(b, keep), k) == if k >= 8 - keep then Bit(b, k) else 0
  {
    AndBit(b, HighMask(8, 8 - keep), k);
    HighMaskBit(8, 8 - keep, k);
  }

  lemma MaskedBit(x: seq<byte>, len: nat, i: nat)
    requires i < 8 * |x|
    ensures GetBit(Masked(x, len), i) == if i < len then GetBit(x, i) else 0
  {
    var keep := Keep(len, i / 8);
    assert i < len <==> 7 - i % 8 >= 8 - keep;
    MaskByteBit(x[i / 8], keep, 7 - i % 8);
  }

  /** Addresses of one width are equal when all their bits are. */
  lemma SameAddress(x: seq<byte>, y: seq<byte>)
    requires |x| == |y|
    requires forall i :: 0 <= i < 8 * |x| ==> GetBit(x, i) == GetBit(y, i)
    ensures x == y
  {
    Pow2Eight();
    forall b | 0 <= b < |x| ensures x[b] == y[b] {
      forall k | 0 <= k < 8 ensures Bit(x[b], k) == Bit(y[b], k) {
        assert (8 * b + (7 - k)) / 8 == b && (8 * b + (7 - k)) % 8 == 7 - k;
        assert GetBit(x, 8 * b + (7 - k)) == GetBit(y, 8 * b + (7 - k));
      }
      SameBits(x[b], y[b], 8);
    }
  }

  /** The addresses agree on their first `len` bits. */
  predicate Agree(x: seq<byte>, y: seq<byte>, len: nat)
    requires |x| == |y|
  {
    forall i :: 0 <= i < len && i < 8 * |x| ==> GetBit(x, i) == GetBit(y, i)
  }

  /** Equal after masking means agreeing on the bits that the mask keeps. */
  lemma MaskedEqual(x: seq<byte>, y: seq<byte>, len: nat)
    requires |x| == |y|
    ensures Masked(x, len) == Masked(y, len) <==> Agree(x, y, len)
    ensures Masked(x, len) == Masked(y, len) <==> forall i :: 0 <= i < len && i < 8 * |x| ==> GetBit(x, i) == GetBit(y, i)
  {
    var mx, my := Masked(x, len), Masked(y, len);
    if mx == my {
      forall i | 0 <= i < len && i < 8 * |x| ensures GetBit(x, i) == GetBit(y, i) {
        MaskedBit(x, len, i);
        MaskedBit(y, len, i);
      }
    }
    if Agree(x, y, len) {
      forall i | 0 <= i < 8 * |x| ensures GetBit(mx, i) == GetBit(my, i) {
        MaskedBit(x, len, i);
        MaskedBit(y, len, i);
      }
      SameAddress(mx, my);
    }
  }

  /** All bits from `len` on are zero. */
  predicate HostBitsZero(x: seq<byte>, len: nat) {
    forall i :: len <= i < 8 * |x| ==> GetBit(x, i) == 0
  }

  lemma HostBitsZeroIsFixpoint(x: seq<byte>, len: nat)
    ensures HostBitsZero(x, len) <==> Masked(x, len) == x
    ensures HostBitsZero(Masked(x, len), len)
  {
    var m := Masked(x, len);
    forall i | 0 <= i < 8 * |x| ensures GetBit(m, i) == if i < len then GetBit(x, i) else 0 { MaskedBit(x, len, i); }
    if HostBitsZero(x, len) { SameAddress(m, x); }
  }

  // ----- numbers -----

  /** The address as a big-endian number. */
  function Number(x: seq<byte>): (n: nat) {
    if x == [] then 0 else x[0] * Pow2(8 * (|x| - 1)) + Number(x[1..])
  }

  lemma Pow2Byte(n: nat)
    ensures Pow2(8 * (n + 1)) == 0x100 * Pow2(8 * n)
  {
    Pow2Eight();
    Pow2Add(8, 8 * n);
  }

  lemma TopBound(top: nat, rest: nat, p: nat)
    requires top < 0x100 && rest < p
    ensures top * p + rest < 0x100 * p
  {
    MulLe(top, 0xff, p);
  }

  lemma {:induction false} NumberBound(x: seq<byte>)
    ensures Number(x) < Pow2(8 * |x|)
  {
    if x != [] {
      var n := |x| - 1;
      NumberBound(x[1..]);
      Pow2Byte(n);
      TopBound(x[0], Number(x[1..]), Pow2(8 * n));
    }
  }

  lemma SplitUnique(a: nat, r: nat, b: nat, s: nat, p: nat)
    requires r < p && s < p
    ensures a * p + r == b * p + s ==> a == b && r == s
  {
    ModUnique(a * p + r, p, a, r);
    ModUnique(b * p + s, p, b, s);
  }

  lemma {:induction false} NumberInjective(x: seq<byte>, y: seq<byte>)
    requires |x| == |y|
    ensures Number(x) == Number(y) <==> x == y
  {
    if x != [] {
      var p := Pow2(8 * (|x| - 1));
      NumberBound(x[1..]);
      NumberBound(y[1..]);
      SplitUnique(x[0], Number(x[1..]), y[0], Number(y[1..]), p);
      NumberInjective(x[1..], y[1..]);
      assert x == [x[0]] + x[1..] && y == [y[0]] + y[1..];
    }
  }

  lemma {:induction false} ZeroNumber(x: seq<byte>)
    requires forall i :: 0 <= i < |x| ==> x[i] == 0
    ensures Number(x) == 0
  {
    if x != [] { ZeroNumber(x[1..]); }
  }

  /** Masking is integer arithmetic: the remainder modulo 2^(W - len) is taken away. */
  lemma {:induction false} MaskedNumber(x: seq<byte>, len: nat)
    requires len <= 8 * |x|
    ensures Number(Masked(x, len)) == Number(x) - Number(x) % Pow2(8 * |x| - len)
    decreases |x|
  {
    if x == [] {
      assert Pow2(0) == 1;
    } else if len < 8 {
      MaskedFirstByte(x, len);
    } else {
      var p, rest := Pow2(8 * (|x| - 1)), Number(x[1..]);
      var c, d := Pow2(len - 8), Pow2(8 * |x| - len);
      MaskByteExtremes(x[0]);
      assert Masked(x, len)[0] == x[0];
      assert Masked(x, len)[1..] == Masked(x[1..], len - 8);
      MaskedNumber(x[1..], len - 8);
      Pow2Add(8 * |x| - len, len - 8);
      assert 8 * |x[1..]| - (len - 8) == 8 * |x| - len;
      assert x[0] * p == d * (c * x[0]) by { Commute(d, c, x[0]); }
      ModShift(rest, d, c * x[0]);
    }
  }

  lemma Commute(d: int, c: int, x: int)
    ensures x * (d * c) == d * (c * x)
  {}

  lemma MaskedRest(x: seq<byte>, len: nat)
    requires x != [] && len < 8
    ensures Number(Masked(x, len)[1..]) == 0
  {
    var rest := Masked(x, len)[1..];
    forall i | 0 <= i < |rest| ensures rest[i] == 0 {
      assert rest[i] == MaskByte(x[i + 1], Keep(len, i + 1));
      MaskByteExtremes(x[i + 1]);
    }
    ZeroNumber(rest);
  }

  /** With fewer than eight bits kept, only a part of the first byte is left. */
  lemma MaskedFirst(x: seq<byte>, len: nat)
    requires x != [] && len < 8
    ensures Masked(x, len)[0] == x[0] - x[0] % Pow2(8 - len)
    ensures Number(Masked(x, len)[1..]) == 0
  {
    MaskedRest(x, len);
    Pow2Eight();
    AndHighMask(x[0], 8, 8 - len);
  }

  lemma MaskedFirstByte(x: seq<byte>, len: nat)
    requires x != [] && len < 8
    ensures Number(Masked(x, len)) == Number(x) - Number(x) % Pow2(8 * |x| - len)
  {
    var n := |x| - 1;
    MaskedFirst(x, len);
    NumberBound(x[1..]);
    Pow2Add(8 - len, 8 * n);
    assert 8 - len + 8 * n == 8 * |x| - len;
    TopByteMod(x[0], Number(x[1..]), Pow2(8 * n), Pow2(8 - len));
  }

  lemma ModShift(x: nat, d: nat, k: int)
    requires d > 0
    ensures (d * k + x) % d == x % d
  {
    ModUnique(d * k + x, d, k + x / d, x % d) by {
      assert x == d * (x / d) + x % d;
      assert d * (k + x / d) == d * k + d * (x / d);
    }
  }

  lemma TopByteMod(top: nat, rest: nat, p: nat, d: nat)
    requires 0 < d && rest < p
    ensures (top * p + rest) - (top * p + rest) % (d * p) == (top - top % d) * p
  {
    var q, r := top / d, top % d;
    assert top == d * q + r;
    assert top * p + rest == (d * p) * q + (r * p + rest) by {
      assert top * p == (d * q) * p + r * p;
      assert (d * q) * p == (d * p) * q;
    }
    assert r * p + rest < d * p by { MulLe(r + 1, d, p); }
    ModUnique(top * p + rest, d * p, q, r * p + rest);
    assert (top - r) * p == (d * q) * p;
    assert (d * q) * p == (d * p) * q;
  }

  lemma DivShift(x: nat, d: nat, k: int)
    requires d > 0
    ensures (d * k + x) / d == k + x / d
  {
    ModUnique(d * k + x, d, k + x / d, x % d) by {
      assert x == d * (x / d) + x % d;
      assert d * (k + x / d) == d * k + d * (x / d);
    }
  }

  lemma DivTop(top: nat, rest: nat, p: nat, d: nat)
    requires 0 < d && rest < p
    ensures (top * p + rest) / (d * p) == top / d
  {
    var q, r := top / d, top % d;
    assert top == d * q + r;
    assert top * p + rest == (d * p) * q + (r * p + rest) by {
      assert top * p == (d * q) * p + r * p;
      assert (d * q) * p == (d * p) * q;
    }
    assert r * p + rest < d * p by { MulLe(r + 1, d, p); }
    ModUnique(top * p + rest, d * p, q, r * p + rest);
  }

  lemma Spread256(top: nat, p: nat, rest: nat, b: nat)
    ensures top * (0x100 * p) + (256 * rest + b) == 256 * (top * p + rest) + b
  {
    Commute(0x100, p, top);
  }

  /** A byte written at the end multiplies the number by 256. */
  lemma {:induction false} NumberAppend(x: seq<byte>, b: byte)
    ensures Number([]) == 0 && Number(x + [b]) == 256 * Number(x) + b
  {
    var y := x + [b];
    assert y[1..] == if x == [] then [] else x[1..] + [b];
    if x == [] {
      assert Pow2(0) == 1;
    } else {
      NumberAppend(x[1..], b);
      Pow2Byte(|x| - 1);
      Spread256(x[0], Pow2(8 * (|x| - 1)), Number(x[1..]), b);
      assert Number(y) == y[0] * Pow2(8 * |x|) + Number(y[1..]);
    }
  }

  /** Bits below a multiple of twice their place do not depend on it. */
  lemma LowBit(top: nat, rest: nat, p: nat, d: nat, c: nat)
    requires d > 0 && p == d * (2 * c)
    ensures (top * p + rest) / d % 2 == rest / d % 2
  {
    var k := c * top;
    Commute(d, 2 * c, top);
    Twice(c, top);
    assert top * p == d * (2 * k);
    DivShift(rest, d, 2 * k);
    EvenPlus(k, rest / d);
  }

  lemma EvenPlus(k: nat, y: nat)
    ensures (2 * k + y) % 2 == y % 2
  {}

  lemma FirstBits(top: byte, rest: nat, n: nat, i: nat)
    requires i < 8 && rest < Pow2(8 * n)
    ensures Bit(top, 7 - i) == (top * Pow2(8 * n) + rest) / Pow2(8 * (n + 1) - 1 - i) % 2
  {
    BitIs(top, 7 - i);
    Pow2Add(7 - i, 8 * n);
    assert 7 - i + 8 * n == 8 * (n + 1) - 1 - i;
    DivTop(top, rest, Pow2(8 * n), Pow2(7 - i));
  }

  lemma OtherBits(top: byte, rest: nat, n: nat, i: nat)
    requires 8 <= i < 8 * (n + 1)
    ensures (top * Pow2(8 * n) + rest) / Pow2(8 * (n + 1) - 1 - i) % 2 == rest / Pow2(8 * n - 1 - (i - 8)) % 2
  {
    var e := 8 * (n + 1) - 1 - i;
    assert e == 8 * n - 1 - (i - 8) && e + (i - 7) == 8 * n;
    Pow2Add(e, i - 7);
    BitIs(0, i - 8);
    LowBit(top, rest, Pow2(8 * n), Pow2(e), Pow2(i - 8));
  }

  /** The bits of an address are the binary digits of its number, the most significant one first. */
  lemma {:induction false} BitOfNumber(x: seq<byte>, i: nat)
    requires i < 8 * |x|
    ensures GetBit(x, i) == Number(x) / Pow2(8 * |x| - 1 - i) % 2
    decreases |x|
  {
    var n := |x| - 1;
    if i < 8 {
      NumberBound(x[1..]);
      FirstBits(x[0], Number(x[1..]), n, i);
    } else {
      BitOfNumber(x[1..], i - 8);
      assert GetBit(x, i) == GetBit(x[1..], i - 8);
      OtherBits(x[0], Number(x[1..]), n, i);
    }
  }

  // ----- the in-place mask of the source -----

  method MaskIp(target: array<byte>, prefixLen: nat)
    modifies target
    ensures target[..] == Masked(old(target[..]), prefixLen)
  {
    ghost var x := target[..];
    var fullBytes := prefixLen / 8;
    var remainingBits := prefixLen % 8;
    forall i | 0 <= i < |x| ensures MaskByte(x[i], 8) == x[i] && MaskByte(x[i], 0) == 0 { MaskByteExtremes(x[i]); }
    if fullBytes < target.Length {
      if remainingBits > 0 {
        var mask := (0xff * Pow2(8 - remainingBits)) % 0x100;
        ShiftedMask(remainingBits);
        target[fullBytes] := And(target[fullBytes], mask);
        fullBytes := fullBytes + 1;
      }
      assert forall k :: 0 <= k < fullBytes ==> target[k] == Masked(x, prefixLen)[k];
      for i := fullBytes to target.Length
        invariant forall k :: 0 <= k < i ==> target[k] == Masked(x, prefixLen)[k]
      {
        target[i] := 0;
      }
    }
  }

  /** 0xFF shifted left and cut to a byte is the mask of the top bits. */
  lemma ShiftedMask(keep: nat)
    requires 0 < keep < 8
    ensures (0xff * Pow2(8 - keep)) % 0x100 == HighMask(8, 8 - keep)
  {
    Pow2Eight();
    assert Pow2(1) == 2 && Pow2(2) == 4 && Pow2(3) == 8 && Pow2(4) == 16;
    assert Pow2(5) == 32 && Pow2(6) == 64 && Pow2(7) == 128;
  }

  // ----- the mask constructor and set_mask -----

  const TABLE: seq<byte> := [0x00, 0x80, 0xc0, 0xe0, 0xf0, 0xf8, 0xfc, 0xfe, 0xff]

  lemma TableIsHighMask(r: nat)
    requires r <= 8
    ensures TABLE[r] == HighMask(8, 8 - r)
  {
    Pow2Eight();
    assert Pow2(0) == 1 && Pow2(1) == 2 && Pow2(2) == 4 && Pow2(3) == 8 && Pow2(4) == 16;
    assert Pow2(5) == 32 && Pow2(6) == 64 && Pow2(7) == 128;
  }

  /** A mask of `prefix` one bits. */
  function MaskBytes(n: nat, prefix: nat): (r: seq<byte>)
    ensures |r| == n
  {
    seq(n, i requires 0 <= i < n => TABLE[Keep(prefix, i)])
  }

  method MaskConstructor(self: array<byte>, prefixIn: nat)
    modifies self
    ensures self[..] == MaskBytes(self.Length, prefixIn)
  {
    var prefix := prefixIn;
    for i := 0 to self.Length
      invariant prefix == if prefixIn >= 8 * i then prefixIn - 8 * i else 0
      invariant forall k :: 0 <= k < i ==> self[k] == TABLE[Keep(prefixIn, k)]
    {
      if prefix >= 8 {
        self[i] := TABLE[8];
        prefix := prefix - 8;
      } else {
        self[i] := TABLE[prefix];
        prefix := 0;
      }
    }
  }

  function AndBytes(x: seq<byte>, y: seq<byte>): (r: seq<byte>)
    requires |x| == |y|
    ensures |r| == |x|
  {
    seq(|x|, i requires 0 <= i < |x| => And(x[i], y[i]) as byte)
  }

  /** The word-wise and of the source, byte by byte. */
  method AndAssign(self: array<byte>, other: array<byte>)
    requires self.Length == other.Length && self != other
    modifies self
    ensures self[..] == AndBytes(old(self[..]), other[..])
  {
    for i := 0 to self.Length
      invariant forall k :: 0 <= k < i ==> self[k] == And(old(self[k]), other[k])
      invariant forall k :: i <= k < self.Length ==> self[k] == old(self[k])
      invariant other[..] == old(other[..])
    {
      self[i] := And(self[i], other[i]);
    }
  }

  /** A mask has ones in front and zeros behind, and the and of two addresses has the bits of both. */
  lemma AndBits(x: seq<byte>, y: seq<byte>, prefix: nat, i: nat)
    requires i < 8 * |x| && |x| == |y|
    ensures GetBit(MaskBytes(|x|, prefix), i) == if i < prefix then 1 else 0
    ensures GetBit(AndBytes(x, y), i) == if GetBit(x, i) == 1 && GetBit(y, i) == 1 then 1 else 0
  {
    TableIsHighMask(Keep(prefix, i / 8));
    HighMaskBit(8, 8 - Keep(prefix, i / 8), 7 - i % 8);
    AndBit(x[i / 8], y[i / 8], 7 - i % 8);
  }

  /** The two mask implementations agree, for prefix lengths past the width as well. */
  lemma MasksAgree(x: seq<byte>, len: nat)
    ensures AndBytes(x, MaskBytes(|x|, len)) == Masked(x, len)
  {
    forall i | 0 <= i < |x| ensures AndBytes(x, MaskBytes(|x|, len))[i] == Masked(x, len)[i] {
      TableIsHighMask(Keep(len, i));
    }
  }

  method SetMask(self: array<byte>, prefix: nat)
    modifies self
    ensures self[..] == Masked(old(self[..]), prefix)
  {
    var mask := new byte[self.Length](_ => 0);
    MaskConstructor(mask, prefix);
    AndAssign(self, mask);
    MasksAgree(old(self[..]), prefix);
  }
}
