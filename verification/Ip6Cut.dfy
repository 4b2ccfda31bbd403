/** IPv6 texts that a length limit cuts off: what is left never decides what the text means. */
module Ip6Cut {
  import opened Text
  import opened Ip6Parser
  import opened Ip6Reference

  // ----- another last digit -----

  /** Another digit in the place of the last one that keeps a number within its limit. */
  lemma OtherDigit(base: nat, a: nat, d: nat, limit: nat) returns (d2: nat)
    requires (base == 10 || base == 16) && d < 16 && limit % 2 == 1 && limit < U32
    requires (a * base + d) % U32 <= limit
    ensures d2 < 16 && (a * base + d2) % U32 <= limit && (a * base + d2) % U32 != (a * base + d) % U32
  {
    var v := (a * base + d) % U32;
    Parity(base, a, d);
    if v >= 1 && d >= 1 {
      d2 := d - 1;
      Before(a * base + d);
    } else {
      d2 := d + 1;
      After(a * base + d, limit);
    }
  }

  /** Both bases and the modulus are even, so the last digit decides the parity. */
  lemma Parity(base: nat, a: nat, d: nat)
    requires base == 10 || base == 16
    ensures (a * base + d) % U32 % 2 == d % 2
  {
    var n := a * base + d;
    assert n == U32 * (n / U32) + n % U32;
    assert n % 2 == d % 2 by { if base == 10 { assert n == 2 * (5 * a) + d; } else { assert n == 2 * (8 * a) + d; } }
  }

  lemma Before(n: nat)
    requires n % U32 >= 1
    ensures n > 0 && (n - 1) % U32 == n % U32 - 1
  {}

  lemma After(n: nat, limit: nat)
    requires n % U32 < limit < U32
    ensures (n + 1) % U32 == n % U32 + 1
  {}

  /** A word that only differs in its last character, or the word "1" for the empty one. */
  lemma OtherWord(base: nat, w: string, limit: nat) returns (w2: string, keep: nat)
    requires (base == 10 || base == 16) && AllHex(w) && limit % 2 == 1 && limit < U32
    requires Fold(base, 0, w) % U32 <= limit
    ensures |w2| == keep + 1 && keep <= |w| <= keep + 1 && w2[..keep] == w[..keep]
    ensures AllHex(w2) && Fold(base, 0, w2) % U32 <= limit && Fold(base, 0, w2) % U32 != Fold(base, 0, w) % U32
  {
    if w == "" {
      w2, keep := "1", 0;
      OneValue(base);
    } else {
      keep := |w| - 1;
      assert w == w[..keep] + [w[keep]];
      w2 := OtherLast(base, w[..keep], w[keep], limit);
    }
  }

  lemma OneValue(base: nat)
    ensures Fold(base, 0, "1") == 1 && Fold(base, 0, "") == 0
  {
    assert Fold(base, 0, "1") == Fold(base, Digit('1'), "1"[1..]);
  }

  lemma OtherLast(base: nat, init: string, c: char, limit: nat) returns (w2: string)
    requires (base == 10 || base == 16) && AllHex(init + [c]) && limit % 2 == 1 && limit < U32
    requires Fold(base, 0, init + [c]) % U32 <= limit
    ensures |w2| == |init| + 1 && w2[..|init|] == init
    ensures AllHex(w2) && Fold(base, 0, w2) % U32 <= limit && Fold(base, 0, w2) % U32 != Fold(base, 0, init + [c]) % U32
  {
    assert forall i :: 0 <= i < |init| ==> init[i] == (init + [c])[i];
    assert IsHex(c) by { assert (init + [c])[|init|] == c; }
    FoldAppend(base, 0, init, c);
    var d := OtherDigit(base, Fold(base, 0, init), Digit(c), limit);
    w2 := init + [Symbol(d)];
    FoldAppend(base, 0, init, Symbol(d));
  }

  // ----- another last word -----

  /** Where the last word of a text starts. */
  function WordStart(s: string, k: nat): (i: nat)
    requires k <= |s|
    ensures i <= k && (i > 0 ==> IsMark(s[i - 1])) && forall j :: i <= j < k ==> !IsMark(s[j])
  {
    if k == 0 || IsMark(s[k - 1]) then k else WordStart(s, k - 1)
  }

  predicate EndsMarked(p: string) {
    p == "" || IsMark(p[|p| - 1])
  }

  lemma PlainSplit(w: string)
    requires Plain(w)
    ensures Split(w) == [Piece(w, AtEnd)]
  {
    assert WordLength(w) == |w|;
  }

  /** A word at the end of a text is its last piece, and the other pieces do not depend on it. */
  lemma {:induction false} SplitEnd(p: string, w: string)
    requires EndsMarked(p) && Plain(w)
    ensures Split(p + w) == Split(p)[..|Split(p)| - 1] + [Piece(w, AtEnd)]
    decreases |p|
  {
    var n := WordLength(p);
    if n == |p| {
      assert p == "" && p + w == w;
      PlainSplit("");
      PlainSplit(w);
    } else {
      var w0, more := p[..n], p[n..];
      var rest := more[Width(more)..];
      assert p == w0 + more;
      SplitEnd(rest, w);
      EndStep(w0, more, rest, w);
    }
  }

  lemma EndStep(w0: string, more: string, rest: string, w: string)
    requires Plain(w0) && Plain(w) && more != "" && IsMark(more[0]) && rest == more[Width(more)..]
    requires Split(rest + w) == Split(rest)[..|Split(rest)| - 1] + [Piece(w, AtEnd)]
    ensures Split(w0 + more + w) == Split(w0 + more)[..|Split(w0 + more)| - 1] + [Piece(w, AtEnd)]
  {
    SameMark(more, w);
    SplitWord(w0, more);
    SplitWord(w0, more + w);
    Regroup(w0, more, w);
    FirstStays(Piece(w0, MarkOf(more)), Split(rest), Piece(w, AtEnd));
  }

  lemma Regroup(a: string, b: string, c: string)
    ensures a + b + c == a + (b + c)
  {}

  lemma FirstStays(p: Piece, ps: seq<Piece>, q: Piece)
    requires ps != []
    ensures [p] + (ps[..|ps| - 1] + [q]) == ([p] + ps)[..|[p] + ps| - 1] + [q]
  {}

  /** A word behind a text does not change the mark that the text starts with. */
  lemma SameMark(more: string, w: string)
    requires more != "" && IsMark(more[0]) && Plain(w)
    ensures MarkOf(more + w) == MarkOf(more) && (more + w)[Width(more + w)..] == more[Width(more)..] + w
    ensures (more + w)[0] == more[0]
  {
    var s := more + w;
    if |more| >= 2 {
      assert s[1] == more[1];
    } else if |s| >= 2 {
      assert s[1] == w[0];
    }
    assert Gap(s) == Gap(more);
  }

  // ----- another address -----

  lemma SpreadLast(all: seq<word>, separator: nat)
    requires separator < |all| <= 8
    ensures Spread(all, separator)[7] == all[|all| - 1]
  {}

  /** Addresses whose last written groups differ are different. */
  lemma LastDiffers(a: seq<word>, b: seq<word>, separator: nat)
    requires separator < |a| == |b| <= 8 && a[|a| - 1] != b[|b| - 1]
    ensures Bytes(Spread(a, separator)) != Bytes(Spread(b, separator))
  {
    SpreadLast(a, separator);
    SpreadLast(b, separator);
    GroupsOfBytes(Spread(a, separator));
    GroupsOfBytes(Spread(b, separator));
  }

  function TailBase(tail: seq<Piece>): nat {
    if |tail| == 4 then 10 else 16
  }

  function TailLimit(tail: seq<Piece>): nat {
    if |tail| == 4 then 0xff else 0xffff
  }

  /** Replacing the last word by one of another value gives another address. */
  lemma OtherTail(head: seq<Piece>, tail: seq<Piece>, w2: string)
    requires tail != [] && Legible(head, tail) && w2 != "" && AllHex(w2)
    requires tail[|tail| - 1].mark == AtEnd
    requires var w := tail[|tail| - 1].word;
             AllHex(w) && Fold(TailBase(tail), 0, w2) % U32 <= TailLimit(tail)
             && Fold(TailBase(tail), 0, w2) % U32 != Fold(TailBase(tail), 0, w) % U32
    ensures var tail2 := tail[..|tail| - 1] + [Piece(w2, AtEnd)];
            && Legible(head, tail2)
            && |Written(head, tail2)| == |Written(head, tail)|
            && Written(head, tail2)[|Written(head, tail)| - 1] != Written(head, tail)[|Written(head, tail)| - 1]
  {
    var groups := Groups16(Closed(head));
    var tail2 := tail[..|tail| - 1] + [Piece(w2, AtEnd)];
    if |tail| == 4 { OtherOctet(groups, tail, w2); } else { OtherGroup(groups, tail, w2); }
    assert Written(head, tail) == groups + TailGroups(groups, tail);
    assert Written(head, tail2) == groups + TailGroups(groups, tail2);
  }

  /** Two lists of the same length with different last elements. */
  predicate LastDiffer(a: seq<word>, b: seq<word>) {
    |a| == |b| && a != [] && a[|a| - 1] != b[|b| - 1]
  }

  lemma OtherGroup(groups: seq<word>, tail: seq<Piece>, w2: string)
    requires |tail| == 1 && TailOk(tail) && w2 != "" && AllHex(w2)
    requires HexVal(w2) % U32 <= 0xffff && HexVal(w2) % U32 != HexVal(tail[0].word) % U32
    ensures var tail2 := tail[..|tail| - 1] + [Piece(w2, AtEnd)];
            TailOk(tail2) && |tail2| == 1 && tail2[0].word == w2 && tail2[0].mark == AtEnd
            && LastDiffer(TailGroups(groups, tail2), TailGroups(groups, tail))
  {
    assert tail[..0] + [Piece(w2, AtEnd)] == [Piece(w2, AtEnd)];
  }

  lemma OtherOctet(groups: seq<word>, tail: seq<Piece>, w2: string)
    requires |tail| == 4 && TailOk(tail) && w2 != "" && AllHex(w2) && AllHex(tail[3].word)
    requires DecVal(w2) % U32 <= 0xff && DecVal(w2) % U32 != DecVal(tail[3].word) % U32
    ensures var tail2 := tail[..|tail| - 1] + [Piece(w2, AtEnd)];
            TailOk(tail2) && |tail2| == 4 && tail2[0] == tail[0]
            && LastDiffer(TailGroups(groups, tail2), TailGroups(groups, tail))
  {
    var tail2 := tail[..3] + [Piece(w2, AtEnd)];
    assert forall i :: 0 <= i < 3 ==> tail2[i] == tail[i];
    assert tail2[3].word == w2 && OctetOk(w2);
    var a, b := Octets(tail), Octets(tail2);
    assert a[2] == b[2] && a[3] != b[3];
    assert Quad(a)[1] != Quad(b)[1];
  }

  /** Cutting at the head of a whole list of pieces is not affected by its last word. */
  lemma SameHead(front: seq<Piece>, w: string, w2: string)
    requires forall i :: 0 <= i < |front| ==> front[i].mark != AtEnd
    ensures var ps, qs := front + [Piece(w, AtEnd)], front + [Piece(w2, AtEnd)];
            && Whole(ps) && Whole(qs) && Head(qs) == Head(ps)
            && Tail(ps)[|Tail(ps)| - 1] == Piece(w, AtEnd)
            && Tail(qs) == Tail(ps)[..|Tail(ps)| - 1] + [Piece(w2, AtEnd)]
  {
    var ps, qs := front + [Piece(w, AtEnd)], front + [Piece(w2, AtEnd)];
    var n := HeadLength(ps);
    assert !Closes(ps[|front|]) && !Closes(qs[|front|]);
    assert forall i :: 0 <= i < |front| ==> qs[i] == front[i] == ps[i];
    assert HeadLength(qs) == n;
    assert ps[n..] == front[n..] + [Piece(w, AtEnd)] && qs[n..] == front[n..] + [Piece(w2, AtEnd)];
    assert ps[..n] == front[..n] == qs[..n];
  }

  lemma HexPlain(w: string)
    requires AllHex(w)
    ensures Plain(w)
  {
    forall i | 0 <= i < |w| ensures !IsMark(w[i]) { assert IsHex(w[i]); }
  }

  /** The last word of a legible list of pieces fits its place. */
  lemma LastWordFits(head: seq<Piece>, tail: seq<Piece>)
    requires tail != [] && Legible(head, tail)
    ensures var w := tail[|tail| - 1].word; AllHex(w) && Fold(TailBase(tail), 0, w) % U32 <= TailLimit(tail)
  {
    if |tail| == 4 { assert OctetOk(tail[3].word); }
  }

  lemma OtherAddress(head: seq<Piece>, tail: seq<Piece>, w2: string)
    requires tail != [] && Address(head, tail).Parsed? && w2 != "" && AllHex(w2) && tail[|tail| - 1].mark == AtEnd
    requires var w := tail[|tail| - 1].word;
             AllHex(w) && Fold(TailBase(tail), 0, w2) % U32 <= TailLimit(tail)
             && Fold(TailBase(tail), 0, w2) % U32 != Fold(TailBase(tail), 0, w) % U32
    ensures var r := Address(head, tail[..|tail| - 1] + [Piece(w2, AtEnd)]); r.Parsed? && r != Address(head, tail)
  {
    var tail2 := tail[..|tail| - 1] + [Piece(w2, AtEnd)];
    OtherTail(head, tail, w2);
    var before := GroupsBefore(head);
    LastDiffers(Written(head, tail), Written(head, tail2), if before == UNSET then 0 else before);
  }

  /** Where the pieces of a text with a word at the end come from. */
  lemma Front(p: string) returns (front: seq<Piece>)
    requires EndsMarked(p)
    ensures forall i :: 0 <= i < |front| ==> front[i].mark != AtEnd
    ensures forall w :: Plain(w) ==> Split(p + w) == front + [Piece(w, AtEnd)]
  {
    front := Split(p)[..|Split(p)| - 1];
    forall w | Plain(w) ensures Split(p + w) == front + [Piece(w, AtEnd)] { SplitEnd(p, w); }
  }

  lemma OtherPieces(front: seq<Piece>, w: string) returns (w2: string, keep: nat)
    requires forall i :: 0 <= i < |front| ==> front[i].mark != AtEnd
    requires var ps := front + [Piece(w, AtEnd)]; Whole(ps) && Address(Head(ps), Tail(ps)).Parsed?
    ensures var ps, qs := front + [Piece(w, AtEnd)], front + [Piece(w2, AtEnd)];
            && Whole(qs) && Address(Head(qs), Tail(qs)).Parsed?
            && Address(Head(qs), Tail(qs)) != Address(Head(ps), Tail(ps))
    ensures AllHex(w2) && |w2| == keep + 1 && keep <= |w| <= keep + 1 && w2[..keep] == w[..keep]
  {
    var ps := front + [Piece(w, AtEnd)];
    var head, tail := Head(ps), Tail(ps);
    SameHead(front, w, w);
    LastWordFits(head, tail);
    w2, keep := OtherWord(TailBase(tail), w, TailLimit(tail));
    SameHead(front, w, w2);
    OtherAddress(head, tail, w2);
  }

  /** Another last word for an accepted text. */
  lemma OtherEnd(p: string, w: string) returns (w2: string, keep: nat)
    requires EndsMarked(p) && Plain(w) && Parse(p + w).Parsed?
    ensures Parse(p + w2).Parsed? && Parse(p + w2) != Parse(p + w)
    ensures |w2| == keep + 1 && keep <= |w| <= keep + 1 && w2[..keep] == w[..keep]
  {
    var front := Front(p);
    ParserMeetsReference(p + w);
    w2, keep := OtherPieces(front, w);
    HexPlain(w2);
    ParserMeetsReference(p + w2);
  }

  /**
    For every accepted text there is another accepted text that agrees with it up to its last
    character, or continues it by one, and stands for another address.
   */
  lemma LookAlike(t: string) returns (t2: string)
    requires Parse(t).Parsed?
    ensures Parse(t2).Parsed? && Parse(t2) != Parse(t)
    ensures |t| <= |t2| <= |t| + 1 && |t2| > 0 && t2[..|t2| - 1] == t[..|t2| - 1]
  {
    var i := WordStart(t, |t|);
    var p, w := t[..i], t[i..];
    assert t == p + w;
    var w2, keep := OtherEnd(p, w);
    t2 := p + w2;
    Agree(t, t2, p, w, w2, keep);
  }

  lemma Agree(t: string, t2: string, p: string, w: string, w2: string, keep: nat)
    requires t == p + w && t2 == p + w2 && |w2| == keep + 1 && keep <= |w| <= keep + 1 && w2[..keep] == w[..keep]
    ensures |t| <= |t2| <= |t| + 1 && t2[..|t2| - 1] == t[..|t2| - 1]
  {
    assert t2[..|t2| - 1] == p + w2[..keep];
    assert t[..|t2| - 1] == p + w[..keep];
  }
}
