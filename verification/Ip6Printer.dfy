/** The IPv6 printer: a three-state automaton over zero runs with an embedded dotted tail. */
module Ip6Printer {
  import opened Text
  import opened Ip6Parser
  import opened Ip6Forms

  // ----- which form a printed address has -----

  /** The first zero group at or after `i`. */
  function NextZero(g: seq<word>, i: nat): (z: nat)
    requires i <= |g|
    ensures i <= z <= |g| && (z < |g| ==> g[z] == 0)
    ensures forall j :: i <= j < z ==> g[j] != 0
    decreases |g| - i
  {
    if i == |g| || g[i] == 0 then i else NextZero(g, i + 1)
  }

  /** The end of the zero run at `i`. */
  function RunEnd(g: seq<word>, i: nat): (w: nat)
    requires i <= |g|
    ensures i <= w <= |g| && (w < |g| ==> g[w] != 0)
    ensures forall j :: i <= j < w ==> g[j] == 0
    decreases |g| - i
  {
    if i == |g| || g[i] != 0 then i else RunEnd(g, i + 1)
  }

  /** The compressed run ends just before a sixth group of all ones: an IPv4-mapped tail. */
  predicate MappedTail(g: seq<word>, reduction: bool)
    requires |g| == 8
  {
    reduction && NextZero(g, 0) <= 4 && RunEnd(g, NextZero(g, 0)) == 5 && g[5] == 0xffff
  }

  /** How many groups are printed in hex. */
  function HexCount(g: seq<word>, reduction: bool, embedded: bool): (n: nat)
    requires |g| == 8
    ensures n == 6 || n == 8
  {
    if embedded || MappedTail(g, reduction) then 6 else 8
  }

  function Texts(g: seq<word>): (ws: seq<string>)
    ensures |ws| == |g| && forall i :: 0 <= i < |g| ==> ws[i] == Numeral(16, g[i])
  {
    seq(|g|, i requires 0 <= i < |g| => Numeral(16, g[i]))
  }

  function OctetTexts(b: seq<byte>): (ws: seq<string>)
    ensures |ws| == |b| && forall i :: 0 <= i < |b| ==> ws[i] == Numeral(10, b[i])
  {
    seq(|b|, i requires 0 <= i < |b| => Numeral(10, b[i]))
  }

  /** The last two groups as four octets. */
  function TailTexts(g: seq<word>): (ws: seq<string>)
    requires |g| == 8
    ensures |ws| == 4
  {
    OctetTexts(Bytes(g[6..]))
  }

  /** The gap stands for the first maximal run of zeros among the groups printed in hex. */
  function PrintForm(g: seq<word>, reduction: bool, embedded: bool): (f: Form)
    requires |g| == 8
    ensures f.tail == [] || |f.tail| == 4
  {
    var n := HexCount(g, reduction, embedded);
    var tail := if n == 8 then [] else TailTexts(g);
    var z := NextZero(g[..n], 0);
    if reduction && z < n then Form(Texts(g[..z]), true, Texts(g[RunEnd(g[..n], z)..n]), tail)
    else Form([], false, Texts(g[..n]), tail)
  }

  // ----- the printer as the source writes it -----

  datatype ZeroState = Looking | Found | End

  /** The hex digits of one group, most significant half byte first, leading zeros left out. */
  method AppendGroup(text: string, hi: byte, lo: byte) returns (result: string)
    ensures result == text + Numeral(16, hi as int * 0x100 + lo as int)
  {
    var nonZero := false;
    result := text;
    var half: nat := hi / 16;
    if half != 0 { nonZero := true; }
    if nonZero { result := result + [Symbol(half)]; }
    half := hi % 16;
    if half != 0 { nonZero := true; }
    if nonZero { result := result + [Symbol(half)]; }
    half := lo / 16;
    if half != 0 { nonZero := true; }
    if nonZero { result := result + [Symbol(half)]; }
    half := lo % 16;
    result := result + [Symbol(half)];
    GroupNumeral(hi, lo);
  }

  lemma NumeralUp(base: nat, q: nat, d: nat)
    requires (base == 10 || base == 16) && d < base
    ensures Numeral(base, q * base + d) == if q == 0 then [Symbol(d)] else Numeral(base, q) + [Symbol(d)]
  {
    assert Quotient(base, q * base + d) == q && Remainder(base, q * base + d) == d;
  }

  /** The printer's view of a group: its significant half bytes, and always the last one. */
  function Halves(a: nat, b: nat, c: nat, d: nat): string
    requires a < 16 && b < 16 && c < 16 && d < 16
  {
    if a != 0 then [Symbol(a), Symbol(b), Symbol(c), Symbol(d)]
    else if b != 0 then [Symbol(b), Symbol(c), Symbol(d)]
    else if c != 0 then [Symbol(c), Symbol(d)]
    else [Symbol(d)]
  }

  lemma HalvesChain(a: nat, b: nat, c: nat, d: nat, s1: string, s2: string, s: string)
    requires a < 16 && b < 16 && c < 16 && d < 16
    requires s1 == if a == 0 then [Symbol(b)] else [Symbol(a)] + [Symbol(b)]
    requires s2 == if a == 0 && b == 0 then [Symbol(c)] else s1 + [Symbol(c)]
    requires s == if a == 0 && b == 0 && c == 0 then [Symbol(d)] else s2 + [Symbol(d)]
    ensures s == Halves(a, b, c, d)
  {}

  lemma HalvesNumeral(q1: nat, q2: nat, n: nat, a: nat, b: nat, c: nat, d: nat)
    requires a < 16 && b < 16 && c < 16 && d < 16
    requires q1 == a * 16 + b && q2 == q1 * 16 + c && n == q2 * 16 + d
    ensures Numeral(16, n) == Halves(a, b, c, d)
  {
    var s1, s2, s := Numeral(16, q1), Numeral(16, q2), Numeral(16, n);
    assert q1 == 0 <==> a == 0 && b == 0;
    assert q2 == 0 <==> q1 == 0 && c == 0;
    assert s1 == if a == 0 then [Symbol(b)] else [Symbol(a)] + [Symbol(b)] by {
      NumeralUp(16, a, b);
      NumeralUp(16, 0, a);
    }
    assert s2 == if q1 == 0 then [Symbol(c)] else s1 + [Symbol(c)] by {
      NumeralUp(16, q1, c);
    }
    assert s == if q2 == 0 then [Symbol(d)] else s2 + [Symbol(d)] by {
      NumeralUp(16, q2, d);
    }
    HalvesChain(a, b, c, d, s1, s2, s);
  }

  lemma GroupNumeral(hi: byte, lo: byte)
    ensures Numeral(16, hi as int * 0x100 + lo as int) == Halves(hi / 16, hi % 16, lo / 16, lo % 16)
  {
    var q1: nat := hi;
    var q2: nat := q1 * 16 + lo / 16;
    HalvesNumeral(q1, q2, hi as int * 0x100 + lo as int, hi / 16, hi % 16, lo / 16, lo % 16);
  }

  /** The decimal digits of one octet. */
  method AppendOctet(text: string, octet: byte) returns (result: string)
    ensures result == text + Numeral(10, octet)
  {
    var b: nat := octet;
    var div := b % 100;
    var nonZero := false;
    result := text;
    b := b / 100;
    if b != 0 {
      result := result + [Symbol(b)];
      nonZero := true;
    }
    b := div / 10;
    div := div % 10;
    if b != 0 || nonZero {
      result := result + [Symbol(b)];
    }
    result := result + [Symbol(div)];
    OctetNumeral(octet);
  }

  lemma OctetNumeral(n: byte)
    ensures var a, b, c := Symbol(n / 100), Symbol(n % 100 / 10), Symbol(n % 100 % 10);
            Numeral(10, n) == if n / 100 != 0 then [a, b, c] else if n % 100 / 10 != 0 then [b, c] else [c]
  {
    assert n / 10 / 10 == n / 100 && n / 10 % 10 == n % 100 / 10 && n % 10 == n % 100 % 10;
    if n >= 10 {
      assert Numeral(10, n) == Numeral(10, n / 10) + [Symbol(n % 10)];
      if n >= 100 {
        assert Numeral(10, n / 10) == Numeral(10, n / 10 / 10) + [Symbol(n / 10 % 10)];
      }
    }
  }

  method AppendTail(text: string, self: array<byte>) returns (result: string)
    requires self.Length == 16
    ensures result == text + Dotted(OctetTexts(self[12..]))
  {
    ghost var ws := OctetTexts(self[12..]);
    result := AppendOctet(text, self[12]);
    assert result == text + ws[0];
    result := AppendOctet(result + ".", self[13]);
    assert result == text + (ws[0] + "." + ws[1]);
    result := AppendOctet(result + ".", self[14]);
    assert result == text + (ws[0] + "." + ws[1] + "." + ws[2]);
    result := AppendOctet(result + ".", self[15]);
  }

  function Body(ws: seq<string>, last: bool): string {
    if last then Separated(ws) else Colons(ws)
  }

  predicate NonZeros(g: seq<word>, a: nat, b: nat)
    requires b <= |g|
  {
    forall j :: a <= j < b ==> g[j] != 0
  }

  predicate AllZeros(g: seq<word>, a: nat, b: nat)
    requires b <= |g|
  {
    forall j :: a <= j < b ==> g[j] == 0
  }

  /** What has been printed after the first `i` groups; the run found is `z..w`. */
  predicate Shown(text: string, g: seq<word>, i: nat, zero: ZeroState, reduction: bool, z: nat, w: nat)
    requires |g| == 8 && i <= 8
  {
    if !reduction then
      zero == End && text == Body(Texts(g[..i]), i == 8)
    else if zero == Looking then
      NonZeros(g, 0, i) && text == Body(Texts(g[..i]), i == 8)
    else if zero == Found then
      z < i && NonZeros(g, 0, z) && AllZeros(g, z, i) && text == Separated(Texts(g[..z])) + "::"
    else
      && z < w < i && NonZeros(g, 0, z) && AllZeros(g, z, w) && g[w] != 0
      && text == Separated(Texts(g[..z])) + "::" + Body(Texts(g[w..i]), i == 8)
  }

  lemma {:induction false} ColonsAppend(ws: seq<string>, w: string)
    ensures Colons(ws + [w]) == Colons(ws) + w + ":"
    ensures Separated(ws + [w]) == Colons(ws) + w
  {
    assert (ws + [w])[..|ws|] == ws;
    if ws != [] {
      ColonsAppend(ws[1..], w);
      assert (ws + [w])[1..] == ws[1..] + [w];
    }
  }

  lemma BodyAppend(g: seq<word>, a: nat, i: nat)
    requires |g| == 8 && a <= i < 8
    ensures Body(Texts(g[a..i + 1]), i == 7)
         == Colons(Texts(g[a..i])) + Numeral(16, g[i]) + if i == 7 then "" else ":"
  {
    assert Texts(g[a..i + 1]) == Texts(g[a..i]) + [Numeral(16, g[i])];
    ColonsAppend(Texts(g[a..i]), Numeral(16, g[i]));
  }

  lemma GapOpens(ws: seq<string>)
    ensures Separated(ws) + "::" == Colons(ws) + if ws == [] then "::" else ":"
  {
    if ws == [] {
      assert "" + "::" == "::";
    } else {
      var n := |ws| - 1;
      assert ws == ws[..n] + [ws[n]];
      ColonsAppend(ws[..n], ws[n]);
      TwoColons(Separated(ws));
    }
  }

  lemma TwoColons(t: string)
    ensures t + "::" == t + ":" + ":"
  {}

  /** What has been printed before a group that goes out in hex: every group so far ends in a colon. */
  predicate Ready(text: string, g: seq<word>, i: nat, zero: ZeroState, reduction: bool, z: nat, w: nat)
    requires |g| == 8 && i < 8
  {
    if !reduction then zero == End && text == Colons(Texts(g[..i]))
    else if zero == Looking then NonZeros(g, 0, i + 1) && text == Colons(Texts(g[..i]))
    else
      && zero == End && z < w <= i && NonZeros(g, 0, z) && AllZeros(g, z, w) && g[w] != 0
      && text == Separated(Texts(g[..z])) + "::" + Colons(Texts(g[w..i]))
  }

  lemma HexShown(text: string, g: seq<word>, i: nat, zero: ZeroState, reduction: bool, z: nat, w: nat)
    requires |g| == 8 && i < 8 && Ready(text, g, i, zero, reduction, z, w)
    ensures Shown(text + Numeral(16, g[i]) + if i == 7 then "" else ":", g, i + 1, zero, reduction, z, w)
  {
    var group, colon := Numeral(16, g[i]), if i == 7 then "" else ":";
    if !reduction || zero == Looking {
      BodyAppend(g, 0, i);
      assert g[0..i] == g[..i] && g[0..i + 1] == g[..i + 1];
    } else {
      BodyAppend(g, w, i);
      var head := Separated(Texts(g[..z])) + "::";
      Glue(head, Colons(Texts(g[w..i])), group);
      Glue(head, Colons(Texts(g[w..i])) + group, colon);
    }
  }

  /** The zero automaton at the start of a turn. */
  method Zeroes(part: word, ghost g: seq<word>, i: nat, text: string, zeroIn: ZeroState, dot: bool, reduction: bool,
                ghost zIn: nat, ghost wIn: nat)
    returns (result: string, zero: ZeroState, ghost z: nat, ghost w: nat)
    requires |g| == 8 && i < 8 && part == g[i]
    requires Shown(text, g, i, zeroIn, reduction, zIn, wIn)
    requires zeroIn == Looking ==> dot == (i > 0)
    ensures if zero == Found then Shown(result, g, i + 1, zero, reduction, z, w) else Ready(result, g, i, zero, reduction, z, w)
  {
    result, zero, z, w := text, zeroIn, zIn, wIn;
    if part == 0 && zero == Looking {
      zero := Found;
      z := i;
      GapOpens(Texts(g[..i]));
      result := result + ":";
      if !dot {
        TwoColons(text);
        result := result + ":";
      }
    } else if part != 0 && zero == Found {
      zero := End;
      w := i;
      assert Texts(g[i..i]) == [];
      Glue(result, "", "");
    }
  }

  /** The zero automaton and the hex part of one turn of the loop. */
  method Turn(self: array<byte>, i: nat, text: string, zeroIn: ZeroState, dotIn: bool, reduction: bool,
              ghost zIn: nat, ghost wIn: nat)
    returns (result: string, zero: ZeroState, dot: bool, ghost z: nat, ghost w: nat)
    requires self.Length == 16 && i < 8
    requires Shown(text, Groups(self[..]), i, zeroIn, reduction, zIn, wIn)
    requires zeroIn == Looking ==> dotIn == (i > 0)
    ensures Shown(result, Groups(self[..]), i + 1, zero, reduction, z, w)
    ensures zero == Looking ==> dot
  {
    ghost var g := Groups(self[..]);
    GroupsAt(self[..], i);
    var part := self[2 * i] as int * 0x100 + self[2 * i + 1] as int;
    dot := dotIn;
    result, zero, z, w := Zeroes(part, g, i, text, zeroIn, dotIn, reduction, zIn, wIn);
    if zero != Found {
      HexShown(result, g, i, zero, reduction, z, w);
      result := HexPart(result, self[2 * i], self[2 * i + 1], i);
      dot := true;
    }
  }

  /** One group in hex and the colon after it. */
  method HexPart(text: string, hi: byte, lo: byte, i: nat) returns (result: string)
    ensures result == text + Numeral(16, hi as int * 0x100 + lo as int) + if i == 7 then "" else ":"
  {
    result := AppendGroup(text, hi, lo);
    Glue(result, "", "");
    if i != 7 {
      result := result + ":";
    }
  }

  lemma RunIs(g: seq<word>, z: nat, w: nat)
    requires z < w <= |g| && NonZeros(g, 0, z) && AllZeros(g, z, w) && (w < |g| ==> g[w] != 0)
    ensures NextZero(g, 0) == z && RunEnd(g, z) == w
  {
    assert g[z] == 0;
  }

  /** The loop ran through: all eight groups are printed in hex. */
  lemma PrintedHex(text: string, g: seq<word>, zero: ZeroState, reduction: bool, z: nat, w: nat)
    requires |g| == 8 && Shown(text, g, 8, zero, reduction, z, w)
    requires !MappedTail(g, reduction)
    ensures text == TextOf(PrintForm(g, reduction, false))
  {
    assert g[..8] == g;
    if reduction && zero == Found {
      RunIs(g, z, 8);
      assert g[8..8] == [] && Texts(g[8..8]) == [];
    } else if reduction && zero == End {
      RunIs(g, z, w);
    }
    assert "" + text == text;
  }

  /** The loop stopped after six groups because the tail is forced. */
  lemma PrintedForced(text: string, g: seq<word>, zero: ZeroState, reduction: bool, z: nat, w: nat)
    requires |g| == 8 && Shown(text, g, 6, zero, reduction, z, w)
    ensures text + Dotted(TailTexts(g)) == TextOf(PrintForm(g, reduction, true))
  {
    var s := g[..6];
    var tail := TailTexts(g);
    if reduction && zero == Found {
      RunIs(s, z, 6);
      ForcedForm(g, reduction, z, 6);
      Glue(Separated(Texts(g[..z])) + "::", "", Dotted(tail));
    } else if reduction && zero == End {
      RunIs(s, z, w);
      ForcedForm(g, reduction, z, w);
      Glue(Separated(Texts(g[..z])) + "::", Colons(Texts(g[w..6])), Dotted(tail));
    } else {
      Glue("", text, Dotted(tail));
    }
  }

  lemma Glue(a: string, b: string, c: string)
    ensures (a + b) + c == a + (b + c)
    ensures a + "" == a && "" + b == b
  {}

  lemma ForcedForm(g: seq<word>, reduction: bool, z: nat, w: nat)
    requires |g| == 8 && reduction && z < w <= 6
    requires NextZero(g[..6], 0) == z && RunEnd(g[..6], z) == w
    ensures PrintForm(g, reduction, true) == Form(Texts(g[..z]), true, Texts(g[w..6]), TailTexts(g))
    ensures Texts(g[6..6]) == []
  {
    assert g[..6][..z] == g[..z];
  }

  /** The loop stopped after five groups at an IPv4-mapped tail. */
  lemma PrintedMapped(text: string, g: seq<word>, embedded: bool, z: nat, w: nat)
    requires |g| == 8 && Shown(text, g, 5, Found, true, z, w) && g[5] == 0xffff
    ensures text + "ffff:" + Dotted(TailTexts(g)) == TextOf(PrintForm(g, true, embedded))
    ensures MappedTail(g, true)
  {
    var s := g[..6];
    RunIs(g, z, 5);
    RunIs(s, z, 5);
    MappedForm(g, embedded, z);
    Glue(text, "ffff:", Dotted(TailTexts(g)));
  }

  lemma MappedForm(g: seq<word>, embedded: bool, z: nat)
    requires |g| == 8 && z < 5 && g[5] == 0xffff && NextZero(g, 0) == z && RunEnd(g, z) == 5
    requires NextZero(g[..6], 0) == z && RunEnd(g[..6], z) == 5
    ensures PrintForm(g, true, embedded) == Form(Texts(g[..z]), true, ["ffff"], TailTexts(g))
    ensures Colons(["ffff"]) == "ffff:"
  {
    assert g[..6][..z] == g[..z] && g[5..6] == [0xffff];
    GroupNumeral(0xff, 0xff);
    assert Texts([0xffff]) == ["ffff"];
    assert Colons(["ffff"]) == "ffff" + ":" + Colons([]);
  }

  lemma NotMapped(text: string, g: seq<word>, zero: ZeroState, reduction: bool, z: nat, w: nat)
    requires |g| == 8 && Shown(text, g, 5, zero, reduction, z, w)
    requires !(zero == Found && g[5] == 0xffff)
    ensures !MappedTail(g, reduction)
  {
    if reduction && zero == End {
      RunIs(g, z, w);
    } else if reduction && zero == Found {
      assert g[z] == 0 && NextZero(g, 0) == z;
    }
  }

  /** The dotted tail after group `i`, when it is due: the loop ends there. */
  method Tail(self: array<byte>, i: nat, text: string, zero: ZeroState, reduction: bool, embedded: bool,
              ghost z: nat, ghost w: nat)
    returns (done: bool, result: string)
    requires self.Length == 16 && i < 8
    requires Shown(text, Groups(self[..]), i + 1, zero, reduction, z, w)
    ensures done <==> (i == 4 && MappedTail(Groups(self[..]), reduction)) || (i == 5 && embedded)
    ensures result == if done then TextOf(PrintForm(Groups(self[..]), reduction, embedded)) else text
  {
    ghost var g := Groups(self[..]);
    GroupsAt(self[..], 5);
    TailBytes(self[..]);
    if i == 4 && zero == Found && self[10] == 0xff && self[11] == 0xff {
      PrintedMapped(text, g, embedded, z, w);
      result := AppendTail(text + "ffff:", self);
      return true, result;
    }
    if i == 4 { NotMapped(text, g, zero, reduction, z, w); }
    if embedded && i == 5 {
      PrintedForced(text, g, zero, reduction, z, w);
      result := AppendTail(text, self);
      return true, result;
    }
    return false, text;
  }

  method ToStr(self: array<byte>, reduction: bool, embedded: bool) returns (result: string)
    requires self.Length == 16
    ensures result == TextOf(PrintForm(Groups(self[..]), reduction, embedded))
  {
    result := "";
    var dot := false;
    var zero := if reduction then Looking else End;
    ghost var z, w := 0, 0;
    var i := 0;
    while i < 8
      invariant i <= 8 && Shown(result, Groups(self[..]), i, zero, reduction, z, w)
      invariant zero == Looking ==> dot == (i > 0)
      invariant i >= 5 ==> !MappedTail(Groups(self[..]), reduction)
      invariant i >= 6 ==> !embedded
    {
      result, zero, dot, z, w := Turn(self, i, result, zero, dot, reduction, z, w);
      var done;
      done, result := Tail(self, i, result, zero, reduction, embedded, z, w);
      if done {
        return;
      }
      i := i + 1;
    }
    PrintedHex(result, Groups(self[..]), zero, reduction, z, w);
  }

  lemma TailBytes(b: seq<byte>)
    requires |b| == 16
    ensures Bytes(Groups(b)[6..]) == b[12..]
  {
    var tail := Groups(b)[6..];
    forall i | 0 <= i < 2 ensures Bytes(tail)[2 * i] == b[12 + 2 * i] && Bytes(tail)[2 * i + 1] == b[12 + 2 * i + 1] {
      BytesAt(tail, i);
      GroupsAt(b, 6 + i);
    }
    assert Bytes(tail)[0] == b[12] && Bytes(tail)[2 * 1] == b[14] && Bytes(tail)[2 * 1 + 1] == b[15];
  }
}
