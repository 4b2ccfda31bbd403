/** Characters, digit strings and numerals shared by the parsers and printers. */
module Text {
  import Bits

  const NUL: char := '\0'
  const U32: nat := 0x1_0000_0000
  const U64: nat := 0x1_0000_0000_0000_0000

  type byte = x: int | 0 <= x < 0x100
  type word = x: int | 0 <= x < 0x1_0000

  /**
    What a parser reports. `Overrun` marks the texts on which the source writes past a local
    array, which leaves its result undefined.
   */
  datatype Outcome = Parsed(bytes: seq<byte>) | Rejected | Overrun

  predicate IsDec(c: char) {
    '0' <= c <= '9'
  }

  predicate IsHex(c: char) {
    IsDec(c) || 'a' <= c <= 'f' || 'A' <= c <= 'F'
  }

  /** The characters of IPv6 text. */
  predicate IsAddressChar(c: char) {
    IsHex(c) || c == ':' || c == '.'
  }

  function Digit(c: char): (d: nat)
    requires IsHex(c)
    ensures d < 16
    ensures IsDec(c) ==> d < 10
  {
    if IsDec(c) then c as int - '0' as int
    else if 'a' <= c <= 'f' then 10 + c as int - 'a' as int
    else 10 + c as int - 'A' as int
  }

  /** The sixteen digits, in lower and in upper case, stand for 0 to 15. */
  lemma DigitsRead(d: nat)
    requires d < 16
    ensures IsHex("0123456789abcdef"[d]) && Digit("0123456789abcdef"[d]) == d
    ensures IsHex("0123456789ABCDEF"[d]) && Digit("0123456789ABCDEF"[d]) == d
  {
    if d < 10 {
      assert "0123456789abcdef"[d] as int == '0' as int + d == "0123456789ABCDEF"[d] as int;
    } else {
      assert "0123456789abcdef"[d] as int == 'a' as int + d - 10;
      assert "0123456789ABCDEF"[d] as int == 'A' as int + d - 10;
    }
  }

  /** There are no other digits. */
  lemma DigitsAre(c: char)
    ensures IsDec(c) <==> c in "0123456789"
    ensures IsHex(c) <==> c in "0123456789abcdefABCDEF"
  {
    if IsDec(c) { assert "0123456789abcdefABCDEF"[c as int - '0' as int] == c == "0123456789"[c as int - '0' as int]; }
    if 'a' <= c <= 'f' { assert "0123456789abcdefABCDEF"[c as int - 'a' as int + 10] == c; }
    if 'A' <= c <= 'F' { assert "0123456789abcdefABCDEF"[c as int - 'A' as int + 16] == c; }
  }

  predicate AllDec(w: string) {
    forall i :: 0 <= i < |w| ==> IsDec(w[i])
  }

  predicate AllHex(w: string) {
    forall i :: 0 <= i < |w| ==> IsHex(w[i])
  }

  // ----- reading a digit string -----

  /** The number read by appending the digits of `w` to `a`, without any bound. */
  function Fold(base: nat, a: nat, w: string): nat
    requires AllHex(w)
    decreases |w|
  {
    if w == "" then a else Fold(base, a * base + Digit(w[0]), w[1..])
  }

  function DecVal(w: string): nat
    requires AllHex(w)
  {
    Fold(10, 0, w)
  }

  function HexVal(w: string): nat
    requires AllHex(w)
  {
    Fold(16, 0, w)
  }

  /** What an unsigned accumulator of modulus `m` holds after the digits of `w`. */
  function Accumulate(m: nat, base: nat, a: nat, w: string): (r: nat)
    requires m > 0 && a < m && AllHex(w)
    ensures r < m
    decreases |w|
  {
    if w == "" then a else Accumulate(m, base, (a * base + Digit(w[0])) % m, w[1..])
  }

  lemma ModAdd(x: int, q: int, m: nat)
    requires m > 0
    ensures (x + m * q) % m == x % m
  {
    var y := x + m * q;
    assert x == m * (x / m) + x % m;
    assert y == m * (y / m) + y % m;
    var k := x / m + q - y / m;
    assert m * k == y % m - x % m by {
      assert m * k == m * (x / m) + m * q - m * (y / m);
    }
    Bits.MulSpread(m, k);
  }

  lemma ModStep(a: nat, base: nat, d: nat, m: nat)
    requires m > 0
    ensures ((a % m) * base + d) % m == (a * base + d) % m
  {
    var q := a / m;
    assert a == m * q + a % m;
    assert a * base + d == ((a % m) * base + d) + m * (q * base) by {
      assert a * base == (m * q) * base + (a % m) * base;
      assert (m * q) * base == m * (q * base);
    }
    ModAdd((a % m) * base + d, q * base, m);
  }

  /** A wrapping accumulator holds the true value modulo its size. */
  lemma {:induction false} AccumulateIsFoldMod(m: nat, base: nat, a: nat, w: string)
    requires m > 0 && AllHex(w)
    ensures Accumulate(m, base, a % m, w) == Fold(base, a, w) % m
    decreases |w|
  {
    if w != "" {
      ModStep(a, base, Digit(w[0]), m);
      AccumulateIsFoldMod(m, base, a * base + Digit(w[0]), w[1..]);
    }
  }

  /** No wrap happens when the value read fits. */
  lemma AccumulateFits(m: nat, base: nat, w: string)
    requires m > 0 && AllHex(w) && Fold(base, 0, w) < m
    ensures Accumulate(m, base, 0, w) == Fold(base, 0, w)
  {
    AccumulateIsFoldMod(m, base, 0, w);
    SmallMod(0, m);
    SmallMod(Fold(base, 0, w), m);
  }

  lemma SmallMod(x: nat, m: nat)
    requires x < m
    ensures x % m == x
  {}

  lemma {:induction false} FoldAppend(base: nat, a: nat, w: string, c: char)
    requires AllHex(w) && IsHex(c)
    ensures AllHex(w + [c])
    ensures Fold(base, a, w + [c]) == Fold(base, a, w) * base + Digit(c)
    decreases |w|
  {
    if w == "" {
      assert (w + [c])[1..] == "";
    } else {
      assert (w + [c])[1..] == w[1..] + [c];
      FoldAppend(base, a * base + Digit(w[0]), w[1..], c);
    }
  }

  /** A digit string is positional, the most significant digit first. */
  lemma PositionalValue(w: string, c: char)
    requires AllHex(w) && IsHex(c)
    ensures AllHex(w + [c]) && AllHex("")
    ensures DecVal("") == 0 && DecVal(w + [c]) == 10 * DecVal(w) + Digit(c)
    ensures HexVal("") == 0 && HexVal(w + [c]) == 16 * HexVal(w) + Digit(c)
  {
    FoldAppend(10, 0, w, c);
    FoldAppend(16, 0, w, c);
  }

  // ----- writing a number -----

  /** The symbol of a digit: '0' to '9', then 'a' to 'f'. */
  function Symbol(d: nat): (c: char)
    requires d < 16
    ensures IsHex(c) && Digit(c) == d
    ensures d < 10 ==> IsDec(c)
    ensures !('A' <= c <= 'F')
  {
    if d < 10 then ('0' as int + d) as char else ('a' as int + d - 10) as char
  }

  function Quotient(base: nat, n: nat): nat
    requires base == 10 || base == 16
  {
    if base == 10 then n / 10 else n / 16
  }

  function Remainder(base: nat, n: nat): (d: nat)
    requires base == 10 || base == 16
    ensures d < base && Quotient(base, n) * base + d == n
  {
    if base == 10 then n % 10 else n % 16
  }

  /** Positional numeral, most significant digit first, lower case, no leading zeros. */
  function Numeral(base: nat, n: nat): (w: string)
    requires base == 10 || base == 16
    ensures w != "" && AllHex(w)
    ensures base == 10 ==> AllDec(w)
  {
    if n < base then [Symbol(n)] else Numeral(base, Quotient(base, n)) + [Symbol(Remainder(base, n))]
  }

  /** Reading a numeral gives the number back. */
  lemma {:induction false} NumeralValue(base: nat, n: nat)
    requires base == 10 || base == 16
    ensures Fold(base, 0, Numeral(base, n)) == n
  {
    if n < base {
      assert [Symbol(n)][1..] == "";
    } else {
      var q := Quotient(base, n);
      NumeralValue(base, q);
      FoldAppend(base, 0, Numeral(base, q), Symbol(Remainder(base, n)));
    }
  }

  /** Lower case without leading zeros (sections 4.1 and 4.3 of RFC 5952). */
  lemma {:induction false} NumeralCanonical(base: nat, n: nat)
    requires base == 10 || base == 16
    ensures var w := Numeral(base, n);
            (|w| > 1 ==> w[0] != '0') && forall i :: 0 <= i < |w| ==> !('A' <= w[i] <= 'F')
    ensures n > 0 ==> Numeral(base, n)[0] != '0'
  {
    if n >= base {
      NumeralCanonical(base, Quotient(base, n));
    }
  }

  function Pow(base: nat, e: nat): nat {
    if e == 0 then 1 else base * Pow(base, e - 1)
  }

  /** A number below base^k prints in at most k digits. */
  lemma {:induction false} NumeralLength(base: nat, n: nat, k: nat)
    requires base == 10 || base == 16
    requires k > 0 && n < Pow(base, k)
    ensures |Numeral(base, n)| <= k
  {
    if n >= base {
      assert k > 1 by { assert Pow(base, 1) == base * Pow(base, 0); }
      NumeralLength(base, Quotient(base, n), k - 1);
    }
  }

  lemma NumeralLengths(n: nat)
    ensures n < 256 ==> |Numeral(10, n)| <= 3
    ensures n < 0x1_0000 ==> |Numeral(10, n)| <= 5 && |Numeral(16, n)| <= 4
  {
    assert Pow(10, 3) == 1000 && Pow(10, 5) == 100000 && Pow(16, 4) == 0x1_0000 by {
      assert Pow(10, 2) == 100 && Pow(16, 2) == 256;
    }
    if n < 256 { NumeralLength(10, n, 3); }
    if n < 0x1_0000 { NumeralLength(10, n, 5); NumeralLength(16, n, 4); }
  }

  // ----- searching -----

  /** The first position from `from` up to `n` that holds none of the allowed characters. */
  function FirstForeign(allowed: char -> bool, s: string, from: nat, n: nat): (i: nat)
    requires from <= n <= |s|
    ensures from <= i <= n && (i < n ==> !allowed(s[i]))
    ensures forall j :: from <= j < i ==> allowed(s[j])
    decreases n - from
  {
    if from == n || !allowed(s[from]) then from else FirstForeign(allowed, s, from + 1, n)
  }

  function IndexFrom(s: string, c: char, from: nat): (i: nat)
    requires from <= |s|
    ensures from <= i <= |s| && (i < |s| ==> s[i] == c)
    ensures forall j :: from <= j < i ==> s[j] != c
    decreases |s| - from
  {
    if from == |s| || s[from] == c then from else IndexFrom(s, c, from + 1)
  }

  /** Where a character first stands, or the length of the string. */
  function IndexOf(s: string, c: char): (i: nat)
    ensures i <= |s| && (i < |s| ==> s[i] == c)
    ensures forall j :: 0 <= j < i ==> s[j] != c
  {
    IndexFrom(s, c, 0)
  }

  lemma IndexOfConcat(p: string, c: char, rest: string)
    requires c !in p && (rest == "" || rest[0] == c)
    ensures IndexOf(p + rest, c) == |p|
  {
    assert forall j :: 0 <= j < |p| ==> (p + rest)[j] == p[j];
    if rest != "" { assert (p + rest)[|p|] == c; }
  }

  /** The length of the longest run of decimal digits at the start. */
  function LeadingDigits(s: string): (n: nat)
    ensures n <= |s| && AllDec(s[..n]) && (n < |s| ==> !IsDec(s[n]))
  {
    if s == "" || !IsDec(s[0]) then 0
    else
      var n := 1 + LeadingDigits(s[1..]);
      assert s[..n] == [s[0]] + s[1..][..n - 1];
      n
  }

  lemma {:induction false} LeadingDigitsConcat(w: string, rest: string)
    requires AllDec(w) && (rest == "" || !IsDec(rest[0]))
    ensures LeadingDigits(w + rest) == |w|
  {
    if w == "" {
      assert w + rest == rest;
    } else {
      assert (w + rest)[1..] == w[1..] + rest;
      LeadingDigitsConcat(w[1..], rest);
    }
  }

  /** What a 64-bit accumulator holds after the digits that `s` starts with. */
  function PortOf(s: string): (p: nat)
    ensures p < U64
    ensures p == DecVal(s[..LeadingDigits(s)]) % 0x1_0000_0000_0000_0000
  {
    AccumulateIsFoldMod(U64, 10, 0, s[..LeadingDigits(s)]);
    Accumulate(U64, 10, 0, s[..LeadingDigits(s)])
  }

  lemma PortOfDigits(w: string)
    requires AllDec(w) && DecVal(w) <= 0xffff
    ensures LeadingDigits(w) == |w| && PortOf(w) == DecVal(w)
  {
    LeadingDigitsConcat(w, "");
    assert w + "" == w && w[..|w|] == w;
    AccumulateFits(U64, 10, w);
  }

  // ----- the part of a buffer a parser may look at -----

  /** A parser may read `length` characters, or up to a terminator. */
  predicate Readable(value: string, length: nat) {
    length <= |value| || NUL in value
  }

  function VisibleFrom(value: string, length: nat, i: nat): (n: nat)
    requires i <= |value|
    ensures i <= n <= |value|
    ensures forall j :: i <= j < n ==> value[j] != NUL && j < length
    ensures n < |value| && n < length ==> value[n] == NUL
    ensures i <= length ==> n <= length
    decreases |value| - i
  {
    if i == |value| || i >= length || value[i] == NUL then i else VisibleFrom(value, length, i + 1)
  }

  /** The characters before both the length limit and the first terminator. */
  function Visible(value: string, length: nat): (s: string)
    ensures s <= value && NUL !in s && |s| <= length
    ensures |s| < |value| && |s| < length ==> value[|s|] == NUL
  {
    value[..VisibleFrom(value, length, 0)]
  }

  /** A terminated string that fits the length limit is seen whole. */
  lemma VisibleTerminated(s: string, rest: string, length: nat)
    requires NUL !in s && |s| <= length
    ensures Readable(s + [NUL] + rest, length)
    ensures Visible(s + [NUL] + rest, length) == s
    ensures Visible(s, |s|) == s
  {
    var value := s + [NUL] + rest;
    assert value[|s|] == NUL;
    var n := VisibleFrom(value, length, 0);
    assert forall i :: 0 <= i < |s| ==> value[i] == s[i] && s[i] in s;
    assert n == |s|;
    assert value[..|s|] == s;
    assert VisibleFrom(s, |s|, 0) == |s|;
  }

  /** A shorter limit shows a prefix of what the longer one shows. */
  lemma VisibleSlice(value: string, length: nat, part: nat)
    requires part <= |Visible(value, length)|
    ensures Readable(value, part) && Visible(value, part) == Visible(value, length)[..part]
  {
    var n := VisibleFrom(value, part, 0);
    assert forall j :: 0 <= j < part ==> value[j] == Visible(value, length)[j];
  }
}
