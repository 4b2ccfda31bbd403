/** Printing an IPv6 address and parsing the text again; the shape of printed addresses. */
module Ip6RoundTrip {
  import opened Text
  import opened Ip6Parser
  import opened Ip6Reference
  import opened Ip6Forms
  import opened Ip6Printer

  /** What the printer writes for sixteen bytes. */
  function ToText(b: seq<byte>, reduction: bool, embedded: bool): string
    requires |b| == 16
  {
    TextOf(PrintForm(Groups(b), reduction, embedded))
  }

  // ----- the printed form means the printed groups -----

  lemma GroupText(x: word)
    ensures IsWord(Numeral(16, x)) && GroupOk(Numeral(16, x)) && GroupValue(Numeral(16, x)) == x
  {
    NumeralValue(16, x);
    SmallMod(x, U32);
  }

  lemma OctetText(x: byte)
    ensures IsDecimal(Numeral(10, x)) && OctetOk(Numeral(10, x)) && OctetValue(Numeral(10, x)) == x
  {
    NumeralValue(10, x);
    SmallMod(x, U32);
  }

  lemma TextsMean(g: seq<word>)
    ensures forall i :: 0 <= i < |g| ==> IsWord(Texts(g)[i]) && GroupOk(Texts(g)[i])
    ensures Values(Texts(g)) == g
  {
    forall i | 0 <= i < |g| ensures IsWord(Texts(g)[i]) && GroupOk(Texts(g)[i]) && GroupValue(Texts(g)[i]) == g[i] { GroupText(g[i]); }
  }

  lemma TailTextsMean(g: seq<word>)
    requires |g| == 8
    ensures forall i :: 0 <= i < 4 ==> IsDecimal(TailTexts(g)[i]) && OctetOk(TailTexts(g)[i])
    ensures Quad(OctetsOf(TailTexts(g))) == g[6..]
  {
    var b := Bytes(g[6..]);
    forall i | 0 <= i < 4
      ensures IsDecimal(TailTexts(g)[i]) && OctetOk(TailTexts(g)[i]) && OctetValue(TailTexts(g)[i]) == b[i]
    {
      OctetText(b[i]);
    }
    assert OctetsOf(TailTexts(g)) == b;
    BytesAt(g[6..], 0);
    BytesAt(g[6..], 1);
    assert b[0] == b[2 * 0] && b[1] == b[2 * 0 + 1] && b[2] == b[2 * 1] && b[3] == b[2 * 1 + 1];
    assert Quad(b) == [g[6], g[7]];
  }

  /** The one case in which the text does not lead back: six zero groups before a forced tail. */
  predicate Ambiguous(g: seq<word>, reduction: bool, embedded: bool)
    requires |g| == 8
  {
    reduction && embedded && AllZeros(g, 0, 6)
  }

  function Mapped(g: seq<word>): (r: seq<word>)
    requires |g| == 8
  {
    Zeros(5) + [0xffff] + g[6..]
  }

  lemma FormWellFormed(g: seq<word>, reduction: bool, embedded: bool)
    requires |g| == 8
    ensures WellFormed(PrintForm(g, reduction, embedded))
  {
    var f := PrintForm(g, reduction, embedded);
    var n := HexCount(g, reduction, embedded);
    var z := NextZero(g[..n], 0);
    TextsMean(g[..z]);
    TextsMean(g[RunEnd(g[..n], z)..n]);
    TextsMean(g[..n]);
    TailTextsMean(g);
  }

  lemma FormMeans(g: seq<word>, reduction: bool, embedded: bool)
    requires |g| == 8
    ensures WellFormed(PrintForm(g, reduction, embedded))
    ensures Meaning(PrintForm(g, reduction, embedded)) == if Ambiguous(g, reduction, embedded) then Mapped(g) else g
  {
    FormWellFormed(g, reduction, embedded);
    var f := PrintForm(g, reduction, embedded);
    var n := HexCount(g, reduction, embedded);
    TailTextsMean(g);
    if f.gap {
      var z := NextZero(g[..n], 0);
      var w := RunEnd(g[..n], z);
      GapEnds(g, reduction, embedded);
      TextsMean(g[..z]);
      TextsMean(g[w..n]);
      assert forall j :: z <= j < w ==> g[..n][j] == g[j];
      GapMeans(f, g, n, z, w);
    } else {
      TextsMean(g[..n]);
      PlainMeans(f, g, n);
      NoGapUnambiguous(g, reduction, embedded);
    }
  }

  lemma NoGapUnambiguous(g: seq<word>, reduction: bool, embedded: bool)
    requires |g| == 8 && !PrintForm(g, reduction, embedded).gap
    ensures !Ambiguous(g, reduction, embedded)
  {
    var n := HexCount(g, reduction, embedded);
    assert reduction ==> NextZero(g[..n], 0) == n;
    assert g[..n][0] == g[0];
  }

  lemma PlainMeans(f: Form, g: seq<word>, n: nat)
    requires |g| == 8 && (n == 6 || n == 8)
    requires WellFormed(f) && !f.gap && |f.right| == n && Values(f.right) == g[..n]
    requires f.tail == [] <==> n == 8
    requires n == 6 ==> Quad(OctetsOf(f.tail)) == g[6..]
    ensures Meaning(f) == g
  {
    var right := Values(f.right) + TailValues(f);
    assert right == g;
    assert Meaning(f) == [] + Zeros(0) + g;
  }

  lemma GapEnds(g: seq<word>, reduction: bool, embedded: bool)
    requires |g| == 8 && PrintForm(g, reduction, embedded).gap
    ensures var n := HexCount(g, reduction, embedded);
            var z := NextZero(g[..n], 0);
            var w := RunEnd(g[..n], z);
            z < w <= n && (n == 6 && z == 0 && w == 6 <==> Ambiguous(g, reduction, embedded))
  {
    var n := HexCount(g, reduction, embedded);
    var s := g[..n];
    var z := NextZero(s, 0);
    var w := RunEnd(s, z);
    assert forall j :: 0 <= j < n ==> s[j] == g[j];
    if n == 6 && z == 0 && w == 6 {
      assert AllZeros(g, 0, 6);
      assert g[5] == 0;
    }
  }

  lemma GapMeans(f: Form, g: seq<word>, n: nat, z: nat, w: nat)
    requires |g| == 8 && (n == 6 || n == 8) && z < w <= n
    requires WellFormed(f) && f.gap && |f.left| == z && |f.right| == n - w
    requires Values(f.left) == g[..z] && Values(f.right) == g[w..n]
    requires f.tail == [] <==> n == 8
    requires n == 6 ==> Quad(OctetsOf(f.tail)) == g[6..]
    requires forall j :: z <= j < w ==> g[j] == 0
    ensures Meaning(f) == if n == 6 && z == 0 && w == 6 then Mapped(g) else g
  {
    if n == 6 && z == 0 && w == 6 {
      GapMeansMapped(f, g);
    } else {
      GapMeansExact(f, g, n, z, w);
    }
  }

  lemma GapMeansMapped(f: Form, g: seq<word>)
    requires |g| == 8 && WellFormed(f) && f.left == [] && f.right == [] && f.tail != []
    requires Quad(OctetsOf(f.tail)) == g[6..]
    ensures Meaning(f) == Mapped(g)
  {
    assert Values(f.right) + TailValues(f) == [0xffff] + g[6..];
    assert Meaning(f) == [] + Zeros(5) + ([0xffff] + g[6..]);
  }

  lemma GapMeansExact(f: Form, g: seq<word>, n: nat, z: nat, w: nat)
    requires |g| == 8 && (n == 6 || n == 8) && z < w <= n && !(n == 6 && z == 0 && w == 6)
    requires WellFormed(f) && |f.left| == z && |f.right| == n - w
    requires Values(f.left) == g[..z] && Values(f.right) == g[w..n]
    requires TailValues(f) == g[n..]
    requires forall j :: z <= j < w ==> g[j] == 0
    ensures Meaning(f) == g
  {
    Reassemble(g, n, z, w, Values(f.left), Values(f.right), TailValues(f));
  }

  lemma Reassemble(g: seq<word>, n: nat, z: nat, w: nat, left: seq<word>, right: seq<word>, tail: seq<word>)
    requires |g| == 8 && z <= w <= n <= 8
    requires left == g[..z] && right == g[w..n] && tail == g[n..]
    requires forall j :: z <= j < w ==> g[j] == 0
    ensures |left| + |right + tail| <= 8 && left + Zeros(8 - |left| - |right + tail|) + (right + tail) == g
  {
    assert right + tail == g[w..];
    assert Zeros(w - z) == g[z..w];
    ThreeParts(g, z, w);
  }

  lemma ThreeParts(g: seq<word>, z: nat, w: nat)
    requires z <= w <= |g|
    ensures g[..z] + g[z..w] + g[w..] == g
  {}

  /**
    Parsing undoes printing for every address and all four flag pairs, except when a forced dotted
    tail follows six zero groups: that text is read as the IPv4-mapped address.
   */
  lemma RoundTrip(b: seq<byte>, reduction: bool, embedded: bool)
    requires |b| == 16
    ensures var g := Groups(b);
            Parse(ToText(b, reduction, embedded)) ==
            Parsed(if Ambiguous(g, reduction, embedded) then Bytes(Mapped(g)) else b)
    ensures Parse(ToText(b, reduction, embedded)) == Parsed(b) <==> !Ambiguous(Groups(b), reduction, embedded)
  {
    var g := Groups(b);
    FormMeans(g, reduction, embedded);
    FormVerdict(PrintForm(g, reduction, embedded));
    BytesOfGroups(b);
    if Ambiguous(g, reduction, embedded) { MappedDiffers(g); }
  }

  lemma MappedDiffers(g: seq<word>)
    requires |g| == 8 && g[5] == 0
    ensures Bytes(Mapped(g)) != Bytes(g)
  {
    BytesAt(Mapped(g), 5);
    BytesAt(g, 5);
    assert Mapped(g)[5] == 0xffff;
    assert Bytes(Mapped(g))[2 * 5] != Bytes(g)[2 * 5];
  }

  lemma AmbiguousForm(g: seq<word>)
    requires |g| == 8 && AllZeros(g, 0, 6)
    ensures PrintForm(g, true, true) == Form([], true, [], TailTexts(g))
    ensures PrintForm(Mapped(g), true, true) == Form([], true, ["ffff"], TailTexts(g))
  {
    assert AllZeros(g[..6], 0, 6);
    RunIs(g[..6], 0, 6);
    assert Texts(g[..0]) == [] && Texts(g[6..6]) == [];
    var m := Mapped(g);
    RunIs(m, 0, 5);
    RunIs(m[..6], 0, 5);
    MappedForm(m, true, 0);
    assert m[6..] == g[6..] && Texts(m[..0]) == [];
  }

  lemma AmbiguousTexts(g: seq<word>)
    requires |g| == 8 && AllZeros(g, 0, 6)
    ensures TextOf(PrintForm(g, true, true)) != TextOf(PrintForm(Mapped(g), true, true))
  {
    AmbiguousForm(g);
    var d := Dotted(TailTexts(g));
    assert Colons(["ffff"]) == "ffff" + ":" + Colons([]);
    assert |TextOf(PrintForm(g, true, true))| == 2 + |d|;
    assert |TextOf(PrintForm(Mapped(g), true, true))| == 2 + (5 + |d|);
  }

  lemma MappedInjective(g: seq<word>, h: seq<word>)
    requires |g| == 8 == |h| && AllZeros(g, 0, 6) && AllZeros(h, 0, 6) && Mapped(g) == Mapped(h)
    ensures g == h
  {
    assert g[6..] == Mapped(g)[6..] == Mapped(h)[6..] == h[6..];
    assert g == g[..6] + g[6..] && h == h[..6] + h[6..] && g[..6] == h[..6];
  }

  /** One address reads back as itself, the other is ambiguous: they print differently. */
  lemma MixedTexts(a: seq<byte>, b: seq<byte>, reduction: bool, embedded: bool)
    requires |a| == 16 == |b| && Ambiguous(Groups(a), reduction, embedded) && !Ambiguous(Groups(b), reduction, embedded)
    ensures ToText(a, reduction, embedded) != ToText(b, reduction, embedded)
  {
    var g := Groups(a);
    RoundTrip(a, reduction, embedded);
    RoundTrip(b, reduction, embedded);
    GroupBijection(b, Mapped(g));
    AmbiguousTexts(g);
  }

  /** Printed text tells addresses apart, for all flags. */
  lemma PrintInjective(a: seq<byte>, b: seq<byte>, reduction: bool, embedded: bool)
    requires |a| == 16 == |b|
    ensures ToText(a, reduction, embedded) == ToText(b, reduction, embedded) <==> a == b
  {
    var g, h := Groups(a), Groups(b);
    if Ambiguous(g, reduction, embedded) && !Ambiguous(h, reduction, embedded) {
      MixedTexts(a, b, reduction, embedded);
    } else if !Ambiguous(g, reduction, embedded) && Ambiguous(h, reduction, embedded) {
      MixedTexts(b, a, reduction, embedded);
    } else {
      RoundTrip(a, reduction, embedded);
      RoundTrip(b, reduction, embedded);
      if Ambiguous(g, reduction, embedded) && ToText(a, reduction, embedded) == ToText(b, reduction, embedded) {
        GroupsOfBytes(Mapped(g));
        GroupsOfBytes(Mapped(h));
        MappedInjective(g, h);
        BytesOfGroups(a);
        BytesOfGroups(b);
      }
    }
  }

  // ----- the shape of printed text -----

  predicate AddressText(s: string) {
    forall i :: 0 <= i < |s| ==> IsAddressChar(s[i]) && !('A' <= s[i] <= 'F')
  }

  /** "::" starts at position `i`. */
  predicate GapAt(s: string, i: nat) {
    i + 1 < |s| && s[i] == ':' && s[i + 1] == ':'
  }

  ghost predicate NoGap(s: string) {
    forall i: nat :: !GapAt(s, i)
  }

  lemma NoGapConcat(a: string, b: string)
    requires NoGap(a) && NoGap(b)
    requires a == "" || b == "" || a[|a| - 1] != ':' || b[0] != ':'
    ensures NoGap(a + b)
  {
    forall i | 0 <= i < |a + b| - 1 ensures !GapAt(a + b, i) {
      if i + 1 < |a| { assert !GapAt(a, i); }
      if i >= |a| { assert !GapAt(b, i - |a|); }
    }
  }

  predicate PrintedGroup(w: string) {
    1 <= |w| <= 4 && AddressText(w) && AllHex(w)
  }

  lemma GroupNoGap(w: string)
    requires AllHex(w)
    ensures NoGap(w)
  {
    assert forall i :: 0 <= i < |w| ==> IsHex(w[i]);
  }

  lemma {:induction false} ColonsShape(ws: seq<string>)
    requires forall i :: 0 <= i < |ws| ==> PrintedGroup(ws[i])
    ensures |Colons(ws)| <= 5 * |ws| && AddressText(Colons(ws)) && NoGap(Colons(ws))
    ensures ws != [] ==> Colons(ws) != "" && Colons(ws)[0] != ':'
  {
    if ws != [] {
      ColonsShape(ws[1..]);
      var w := ws[0];
      assert IsHex(w[0]) && IsHex(w[|w| - 1]);
      GroupNoGap(w);
      NoGapConcat(w, ":");
      NoGapConcat(w + ":", Colons(ws[1..]));
    }
  }

  lemma SeparatedShape(ws: seq<string>)
    requires forall i :: 0 <= i < |ws| ==> PrintedGroup(ws[i])
    ensures |Separated(ws)| <= 5 * |ws| && (ws != [] ==> |Separated(ws)| <= 5 * |ws| - 1)
    ensures AddressText(Separated(ws)) && NoGap(Separated(ws))
    ensures ws != [] ==> Separated(ws) != "" && Separated(ws)[0] != ':' && Separated(ws)[|Separated(ws)| - 1] != ':'
  {
    if ws != [] {
      var n := |ws| - 1;
      var w := ws[n];
      ColonsShape(ws[..n]);
      assert IsHex(w[0]) && IsHex(w[|w| - 1]);
      GroupNoGap(w);
      NoGapConcat(Colons(ws[..n]), w);
      if n > 0 { assert Separated(ws)[0] == Colons(ws[..n])[0]; }
      assert Separated(ws)[|Separated(ws)| - 1] == w[|w| - 1];
    }
  }

  lemma TextsPrinted(g: seq<word>)
    ensures forall i :: 0 <= i < |g| ==> PrintedGroup(Texts(g)[i])
  {
    forall i | 0 <= i < |g| ensures PrintedGroup(Texts(g)[i]) {
      NumeralLengths(g[i]);
      NumeralCanonical(16, g[i]);
    }
  }

  lemma DottedShape(g: seq<word>)
    requires |g| == 8
    ensures var d := Dotted(TailTexts(g));
            7 <= |d| <= 15 && AddressText(d) && NoGap(d) && d[0] != ':'
  {
    var ws := TailTexts(g);
    var b := Bytes(g[6..]);
    forall i | 0 <= i < 4 ensures 1 <= |ws[i]| <= 3 && AllDec(ws[i]) {
      NumeralLengths(b[i]);
    }
    var d := Dotted(ws);
    assert forall i :: 0 <= i < |d| ==> IsDec(d[i]) || d[i] == '.';
  }

  /** Length, alphabet and gaps of the text after the gap. */
  lemma RestShape(f: Form, g: seq<word>)
    requires |g| == 8 && (f.tail == [] || f.tail == TailTexts(g))
    requires forall i :: 0 <= i < |f.right| ==> PrintedGroup(f.right[i])
    ensures var s := RestText(f);
            && |s| <= 5 * |f.right| + (if f.tail == [] then 0 else 15)
            && (f.tail == [] && f.right != [] ==> |s| <= 5 * |f.right| - 1)
            && AddressText(s) && NoGap(s) && NoColonAhead(s)
            && (s == "" <==> f.tail == [] && f.right == [])
  {
    if f.tail == [] {
      SeparatedShape(f.right);
    } else {
      ColonsShape(f.right);
      DottedShape(g);
      NoGapConcat(Colons(f.right), Dotted(f.tail));
    }
  }

  lemma GapOnce(a: string, b: string)
    requires NoGap(a) && NoGap(b) && (a == "" || a[|a| - 1] != ':') && NoColonAhead(b)
    ensures forall i: nat :: GapAt(a + "::" + b, i) <==> i == |a|
  {
    var s := a + "::" + b;
    forall i: nat | i < |s| ensures GapAt(s, i) <==> i == |a| {
      if i + 1 < |a| { assert !GapAt(a, i); }
      if i >= |a| + 2 { assert !GapAt(b, i - |a| - 2); }
    }
  }

  /** The pieces are printed groups and a printed tail, and leave room for at most eight groups. */
  predicate Printed(f: Form, g: seq<word>)
    requires |g| == 8
  {
    && (forall i :: 0 <= i < |f.left| ==> PrintedGroup(f.left[i]))
    && (forall i :: 0 <= i < |f.right| ==> PrintedGroup(f.right[i]))
    && (f.tail == [] || f.tail == TailTexts(g))
    && |f.left| + |f.right| + (if f.gap then 1 else 0) <= (if f.tail == [] then 8 else 6)
    && (!f.gap ==> f.left == [] && |f.right| >= 6)
  }

  lemma FormPrinted(g: seq<word>, reduction: bool, embedded: bool)
    requires |g| == 8
    ensures Printed(PrintForm(g, reduction, embedded), g)
  {
    var n := HexCount(g, reduction, embedded);
    var z := NextZero(g[..n], 0);
    TextsPrinted(g[..z]);
    TextsPrinted(g[RunEnd(g[..n], z)..n]);
    TextsPrinted(g[..n]);
    if PrintForm(g, reduction, embedded).gap { GapEnds(g, reduction, embedded); }
  }

  lemma GapFormShape(f: Form, g: seq<word>)
    requires |g| == 8 && Printed(f, g) && f.gap
    ensures 2 <= |TextOf(f)| <= 45 && AddressText(TextOf(f))
    ensures forall i: nat :: GapAt(TextOf(f), i) <==> i == |Separated(f.left)|
  {
    RestShape(f, g);
    SeparatedShape(f.left);
    GapOnce(Separated(f.left), RestText(f));
  }

  lemma PlainFormShape(f: Form, g: seq<word>)
    requires |g| == 8 && Printed(f, g) && !f.gap
    ensures 2 <= |TextOf(f)| <= 45 && AddressText(TextOf(f)) && NoGap(TextOf(f))
  {
    RestShape(f, g);
    assert TextOf(f) == RestText(f);
    EnoughText(f.right);
  }

  /** The gap is printed exactly when a group that goes out in hex is zero. */
  lemma GapWhenZero(g: seq<word>, reduction: bool, embedded: bool)
    requires |g| == 8
    ensures PrintForm(g, reduction, embedded).gap <==>
            reduction && exists j :: 0 <= j < HexCount(g, reduction, embedded) && g[j] == 0
  {
    var n := HexCount(g, reduction, embedded);
    var z := NextZero(g[..n], 0);
    assert forall j :: 0 <= j < n ==> g[..n][j] == g[j];
    if z < n { assert g[z] == 0; }
  }

  /**
    Printed text has 2 to 45 characters of the address alphabet in lower case, and contains "::"
    exactly once when a zero group was compressed, otherwise never.
   */
  lemma TextShape(b: seq<byte>, reduction: bool, embedded: bool)
    requires |b| == 16
    ensures var s := ToText(b, reduction, embedded);
            var f := PrintForm(Groups(b), reduction, embedded);
            && 2 <= |s| <= 45 && AddressText(s)
            && (if f.gap then forall i: nat :: GapAt(s, i) <==> i == |Separated(f.left)| else NoGap(s))
            && (f.gap <==> reduction && exists j :: 0 <= j < HexCount(Groups(b), reduction, embedded) && Groups(b)[j] == 0)
  {
    var g := Groups(b);
    var f := PrintForm(g, reduction, embedded);
    FormPrinted(g, reduction, embedded);
    GapWhenZero(g, reduction, embedded);
    if f.gap {
      GapFormShape(f, g);
    } else {
      PlainFormShape(f, g);
    }
  }

  /** The length and the alphabet alone. */
  lemma TextFits(b: seq<byte>, reduction: bool, embedded: bool, foreign: char)
    requires |b| == 16 && !IsAddressChar(foreign)
    ensures var s := ToText(b, reduction, embedded);
            2 <= |s| <= 45 && AddressText(s) && foreign !in s
  {
    TextShape(b, reduction, embedded);
  }

  lemma EnoughText(ws: seq<string>)
    requires |ws| >= 2 && forall i :: 0 <= i < |ws| ==> PrintedGroup(ws[i])
    ensures |Separated(ws)| >= 2 && |Colons(ws)| >= 2
  {
    assert Colons(ws) == ws[0] + ":" + Colons(ws[1..]);
    var c := ws[..|ws| - 1];
    assert Colons(c) == c[0] + ":" + Colons(c[1..]);
  }
}
