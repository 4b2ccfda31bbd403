/** What a printed IPv6 address looks like, group by group. */
module Ip6Printed {
  import opened Text
  import opened Ip6Parser
  import opened Ip6Forms
  import opened Ip6Printer
  import opened Ip6RoundTrip

  lemma SeparatedCons(w: string, ws: seq<string>)
    requires ws != []
    ensures Separated([w] + ws) == w + ":" + Separated(ws)
  {
    var init, last := ws[..|ws| - 1], ws[|ws| - 1];
    assert ([w] + ws)[..|ws|] == [w] + init && ([w] + init)[1..] == init;
    assert Colons([w] + init) == w + ":" + Colons(init);
    Glue(w + ":", Colons(init), last);
  }

  lemma SeparatedOne(w: string)
    ensures Separated([w]) == w
  {
    assert Colons([w][..0]) == "" && "" + w == w;
  }

  /** Groups in hex with colons between them. */
  lemma Joined(x: word, g: seq<word>)
    ensures Separated(Texts([])) == "" && Separated(Texts([x])) == Numeral(16, x)
    ensures g != [] ==> Separated(Texts([x] + g)) == Numeral(16, x) + ":" + Separated(Texts(g))
  {
    TextsCons(x, g);
    SeparatedOne(Numeral(16, x));
    if g != [] { SeparatedCons(Numeral(16, x), Texts(g)); }
  }

  lemma TextsCons(x: word, g: seq<word>)
    ensures Texts([]) == [] && Texts([x]) == [Numeral(16, x)] && Texts([x] + g) == [Numeral(16, x)] + Texts(g)
  {
    var h, r := [x] + g, [Numeral(16, x)] + Texts(g);
    forall k | 0 <= k < |h| ensures Texts(h)[k] == r[k] {
      if k > 0 { assert h[k] == g[k - 1]; }
    }
  }

  lemma ColonsSeparated(ws: seq<string>)
    ensures Colons(ws) == Separated(ws) + if ws == [] then "" else ":"
  {
    if ws != [] {
      var init, last := ws[..|ws| - 1], ws[|ws| - 1];
      assert init + [last] == ws;
      ColonsAppend(init, last);
    }
  }

  lemma MappedExactly(g: seq<word>, reduction: bool)
    requires |g| == 8
    ensures MappedTail(g, reduction) <==>
            && reduction && g[4] == 0 && g[5] == 0xffff
            && (g[0] == 0 ==> g[1] == 0) && (g[1] == 0 ==> g[2] == 0) && (g[2] == 0 ==> g[3] == 0)
  {
    var z := NextZero(g, 0);
    var w := RunEnd(g, z);
    assert g[0] == 0 ==> z == 0;
    assert forall j :: z <= j < w ==> g[j] == 0;
    if g[4] == 0 && g[5] == 0xffff && (g[0] == 0 ==> g[1] == 0) && (g[1] == 0 ==> g[2] == 0) && (g[2] == 0 ==> g[3] == 0) {
      assert z <= 4 && forall j :: z <= j < 5 ==> g[j] == 0;
      assert NonZeros(g, 0, z) && AllZeros(g, z, 5);
      RunIs(g, z, 5);
    }
  }

  lemma TailText(b: seq<byte>)
    requires |b| == 16
    ensures Dotted(TailTexts(Groups(b)))
         == Numeral(10, b[12]) + "." + Numeral(10, b[13]) + "." + Numeral(10, b[14]) + "." + Numeral(10, b[15])
  {
    TailBytes(b);
    assert Bytes(Groups(b)[6..]) == b[12..];
  }

  /**
    The text of an address in which no zero group is left out: without reduction, or when none of the
    groups printed in hex is zero. Six groups are printed in hex and the rest as a dotted IPv4 address
    exactly when that is asked for, or the first zero run of a reduced text ends in front of a sixth
    group ffff.
   */
  lemma PrintedPlain(b: seq<byte>, g: seq<word>, reduction: bool, embedded: bool, n: nat, dotted: string)
    requires |b| == 16 && g == Groups(b)
    requires n == if || embedded
                     || (&& reduction && g[4] == 0 && g[5] == 0xffff
                         && (g[0] == 0 ==> g[1] == 0) && (g[1] == 0 ==> g[2] == 0) && (g[2] == 0 ==> g[3] == 0))
                  then 6 else 8
    requires dotted == Numeral(10, b[12]) + "." + Numeral(10, b[13]) + "." + Numeral(10, b[14]) + "." + Numeral(10, b[15])
    requires !reduction || forall j :: 0 <= j < n ==> g[j] != 0
    ensures TextOf(PrintForm(g, reduction, embedded)) == ToText(b, reduction, embedded) == Separated(Texts(g[..n])) + if n == 8 then "" else ":" + dotted
  {
    MappedExactly(g, reduction);
    TailText(b);
    assert HexCount(g, reduction, embedded) == n;
    PlainText(g, n, if n == 8 then [] else TailTexts(g), dotted);
  }

  lemma PlainText(g: seq<word>, n: nat, tail: seq<string>, dotted: string)
    requires |g| == 8 && (n == 6 || n == 8) && tail == (if n == 8 then [] else TailTexts(g)) && dotted == Dotted(TailTexts(g))
    ensures TextOf(Form([], false, Texts(g[..n]), tail)) == Separated(Texts(g[..n])) + if n == 8 then "" else ":" + dotted
  {
    var s := Separated(Texts(g[..n]));
    ColonsSeparated(Texts(g[..n]));
    assert "" + s == s && s + "" == s;
    Glue(s, ":", dotted);
    Glue("", s + ":", dotted);
  }

  /**
    The text of an address with a gap: "::" stands for the whole of the first run `z..w` of zero groups
    among the `n` that are printed in hex.
   */
  lemma PrintedGap(b: seq<byte>, g: seq<word>, embedded: bool, n: nat, z: nat, w: nat, dotted: string)
    requires |b| == 16 && g == Groups(b)
    requires n == if || embedded
                     || (&& g[4] == 0 && g[5] == 0xffff
                         && (g[0] == 0 ==> g[1] == 0) && (g[1] == 0 ==> g[2] == 0) && (g[2] == 0 ==> g[3] == 0))
                  then 6 else 8
    requires dotted == Numeral(10, b[12]) + "." + Numeral(10, b[13]) + "." + Numeral(10, b[14]) + "." + Numeral(10, b[15])
    requires z < w <= n && (forall j :: 0 <= j < z ==> g[j] != 0) && (forall j :: z <= j < w ==> g[j] == 0) && (w < n ==> g[w] != 0)
    ensures TextOf(PrintForm(g, true, embedded)) == ToText(b, true, embedded)
         == Separated(Texts(g[..z])) + "::" + Separated(Texts(g[w..n]))
            + if n == 8 then "" else (if w == 6 then "" else ":") + dotted
  {
    MappedExactly(g, true);
    TailText(b);
    assert HexCount(g, true, embedded) == n;
    GapForm(g, embedded, n, z, w);
    GapText(g, n, z, w, if n == 8 then [] else TailTexts(g), dotted);
  }

  lemma GapForm(g: seq<word>, embedded: bool, n: nat, z: nat, w: nat)
    requires |g| == 8 && n == HexCount(g, true, embedded)
    requires z < w <= n && (forall j :: 0 <= j < z ==> g[j] != 0) && (forall j :: z <= j < w ==> g[j] == 0) && (w < n ==> g[w] != 0)
    ensures PrintForm(g, true, embedded) == Form(Texts(g[..z]), true, Texts(g[w..n]), if n == 8 then [] else TailTexts(g))
  {
    var s := g[..n];
    assert NonZeros(s, 0, z) && AllZeros(s, z, w);
    RunIs(s, z, w);
    assert s[..z] == g[..z] && s[w..n] == g[w..n];
  }

  lemma GapText(g: seq<word>, n: nat, z: nat, w: nat, tail: seq<string>, dotted: string)
    requires |g| == 8 && (n == 6 || n == 8) && z <= w <= n
    requires tail == (if n == 8 then [] else TailTexts(g)) && dotted == Dotted(TailTexts(g))
    ensures TextOf(Form(Texts(g[..z]), true, Texts(g[w..n]), tail))
         == Separated(Texts(g[..z])) + "::" + Separated(Texts(g[w..n]))
            + if n == 8 then "" else (if w == 6 then "" else ":") + dotted
  {
    var head, s := Separated(Texts(g[..z])) + "::", Separated(Texts(g[w..n]));
    ColonsSeparated(Texts(g[w..n]));
    Glue(head, s, "");
    Glue(s, if w == 6 then "" else ":", dotted);
    Glue(head, s, (if w == 6 then "" else ":") + dotted);
  }
}
