/**
  The text forms of IPv6 addresses (section 2.2 of RFC 4291) and what the parser makes of them:
  groups, at most one "::", and optionally a dotted IPv4 tail.
 */
module Ip6Forms {
  import opened Text
  import opened Ip6Parser
  import opened Ip6Reference
  import Bits

  /** `left` stands before the gap; without a gap every group is in `right`. */
  datatype Form = Form(left: seq<string>, gap: bool, right: seq<string>, tail: seq<string>)

  predicate IsWord(w: string) {
    w != "" && AllHex(w)
  }

  predicate IsDecimal(w: string) {
    w != "" && AllDec(w)
  }

  /** One to four hex digits are a group. */
  lemma ShortGroup(w: string)
    requires 1 <= |w| <= 4 && AllHex(w)
    ensures IsWord(w) && GroupOk(w)
  {
    FoldBelow(16, 0, w);
    assert Pow(16, 4) == 0x1_0000 by { assert Pow(16, 2) == 256; }
    assert Pow(16, 1) == 16 && Pow(16, 2) == 256 && Pow(16, 3) == 4096;
  }

  lemma {:induction false} FoldBelow(base: nat, a: nat, w: string)
    requires base == 16 && AllHex(w)
    ensures Fold(base, a, w) < (a + 1) * Pow(base, |w|)
    decreases |w|
  {
    if w != "" {
      var d := Digit(w[0]);
      FoldBelow(base, a * 16 + d, w[1..]);
      OneDigit(a, d, Pow(16, |w| - 1));
    }
  }

  lemma OneDigit(a: nat, d: nat, p: nat)
    requires d < 16
    ensures (a * 16 + d + 1) * p <= (a + 1) * (16 * p)
  {
    Bits.MulLe(a * 16 + d + 1, (a + 1) * 16, p);
    assert (a + 1) * 16 * p == (a + 1) * (16 * p);
  }

  /** Hex words and a decimal tail of any size, and something is written. */
  predicate Shaped(f: Form) {
    && (forall i :: 0 <= i < |f.left| ==> IsWord(f.left[i]))
    && (forall i :: 0 <= i < |f.right| ==> IsWord(f.right[i]))
    && (f.tail == [] || (|f.tail| == 4 && forall i :: 0 <= i < 4 ==> IsDecimal(f.tail[i])))
    && (!f.gap ==> f.left == [] && (f.right != [] || f.tail != []))
  }

  /** Every word is a group of 16 bits and every number of the tail an octet, modulo 2^32. */
  predicate ValuesFit(f: Form) {
    && (forall i :: 0 <= i < |f.left| ==> GroupOk(f.left[i]))
    && (forall i :: 0 <= i < |f.right| ==> GroupOk(f.right[i]))
    && (forall i :: 0 <= i < |f.tail| ==> OctetOk(f.tail[i]))
  }

  /** At most eight groups in all, a dotted tail counting as two, and at most seven before the gap. */
  predicate CountFits(f: Form) {
    |f.left| <= 7 && |f.left| + |f.right| + (if f.tail == [] then 0 else 2) <= 8
  }

  predicate WellFormed(f: Form) {
    Shaped(f) && ValuesFit(f) && CountFits(f)
  }

  function Colons(ws: seq<string>): string {
    if ws == [] then "" else ws[0] + ":" + Colons(ws[1..])
  }

  function Separated(ws: seq<string>): string {
    if ws == [] then "" else Colons(ws[..|ws| - 1]) + ws[|ws| - 1]
  }

  function Dotted(tail: seq<string>): string
    requires |tail| == 4
  {
    tail[0] + "." + tail[1] + "." + tail[2] + "." + tail[3]
  }

  function RestText(f: Form): string
    requires f.tail == [] || |f.tail| == 4
  {
    if f.tail == [] then Separated(f.right) else Colons(f.right) + Dotted(f.tail)
  }

  function HeadText(f: Form): string {
    if f.gap then Separated(f.left) + "::" else ""
  }

  function TextOf(f: Form): string
    requires f.tail == [] || |f.tail| == 4
  {
    HeadText(f) + RestText(f)
  }

  // ----- the meaning of a form -----

  function Values(ws: seq<string>): (r: seq<word>)
    requires forall i :: 0 <= i < |ws| ==> GroupOk(ws[i])
    ensures |r| == |ws|
  {
    seq(|ws|, i requires 0 <= i < |ws| && GroupOk(ws[i]) => GroupValue(ws[i]))
  }

  function OctetsOf(tail: seq<string>): (r: seq<byte>)
    requires |tail| == 4 && forall i :: 0 <= i < 4 ==> OctetOk(tail[i])
    ensures |r| == 4
  {
    [OctetValue(tail[0]), OctetValue(tail[1]), OctetValue(tail[2]), OctetValue(tail[3])]
  }

  /** The dotted tail is the last two groups; with no group at all it is an IPv4-mapped address. */
  function TailValues(f: Form): (r: seq<word>)
    requires Shaped(f) && ValuesFit(f)
  {
    if f.tail == [] then []
    else (if f.left == [] && f.right == [] then [0xffff] else []) + Quad(OctetsOf(f.tail))
  }

  function Meaning(f: Form): (g: seq<word>)
    requires WellFormed(f)
    ensures |g| == 8
  {
    var right := Values(f.right) + TailValues(f);
    Values(f.left) + Zeros(8 - |f.left| - |right|) + right
  }

  // ----- the pieces of a form -----

  function Tagged(ws: seq<string>, mark: Mark): (ps: seq<Piece>)
    ensures |ps| == |ws| && forall i :: 0 <= i < |ws| ==> ps[i] == Piece(ws[i], mark)
  {
    seq(|ws|, i requires 0 <= i < |ws| => Piece(ws[i], mark))
  }

  /** The groups of `right` that a colon ends. */
  function RightClosers(f: Form): seq<string> {
    if f.tail == [] && f.right != [] then f.right[..|f.right| - 1] else f.right
  }

  function LeftPieces(f: Form): seq<Piece> {
    if !f.gap then []
    else if f.left == [] then [LEADING_GAP]
    else Tagged(f.left[..|f.left| - 1], ByColon) + [Piece(f.left[|f.left| - 1], ByGap)]
  }

  function FormHead(f: Form): seq<Piece> {
    LeftPieces(f) + Tagged(RightClosers(f), ByColon)
  }

  function FormTail(f: Form): (ps: seq<Piece>)
    requires f.tail == [] || |f.tail| == 4
    ensures Whole(ps)
  {
    if f.tail != [] then Tagged(f.tail[..3], ByDot) + [Piece(f.tail[3], AtEnd)]
    else [Piece(if f.right == [] then "" else f.right[|f.right| - 1], AtEnd)]
  }

  lemma HexIsPlain(w: string)
    requires AllHex(w)
    ensures Plain(w)
  {
    forall i | 0 <= i < |w| ensures !IsMark(w[i]) { assert IsHex(w[i]); }
  }

  lemma SplitLast(w: string)
    requires AllHex(w)
    ensures Split(w) == [Piece(w, AtEnd)]
  {
    HexIsPlain(w);
    assert WordLength(w) == |w|;
  }

  lemma SplitColon(w: string, rest: string)
    requires AllHex(w) && NoColonAhead(rest)
    ensures Split(w + (":" + rest)) == [Piece(w, ByColon)] + Split(rest)
  {
    var more := ":" + rest;
    assert !Gap(more) && more[1..] == rest;
    HexIsPlain(w);
    SplitWord(w, more);
  }

  lemma SplitGap(w: string, rest: string)
    requires AllHex(w)
    ensures Split(w + ("::" + rest)) == [Piece(w, ByGap)] + Split(rest)
  {
    var more := "::" + rest;
    assert Gap(more) && more[2..] == rest;
    HexIsPlain(w);
    SplitWord(w, more);
  }

  lemma SplitDot(w: string, rest: string)
    requires AllHex(w)
    ensures Split(w + ("." + rest)) == [Piece(w, ByDot)] + Split(rest)
  {
    var more := "." + rest;
    assert more[1..] == rest;
    HexIsPlain(w);
    SplitWord(w, more);
  }

  predicate NoColonAhead(s: string) {
    s == "" || s[0] != ':'
  }

  lemma Assoc(a: string, b: string, c: string)
    ensures (a + b) + c == a + (b + c)
  {}

  lemma WordStart(w: string, rest: string)
    requires IsWord(w)
    ensures NoColonAhead(w + rest)
  {
    assert IsHex(w[0]) && (w + rest)[0] == w[0];
  }

  /** The text of a list of groups starts with its first group. */
  lemma ColonsSplit(ws: seq<string>, rest: string)
    requires ws != []
    ensures Colons(ws) + rest == ws[0] + (":" + (Colons(ws[1..]) + rest))
  {
    Assoc(ws[0], ":", Colons(ws[1..]));
    Assoc(ws[0], ":" + Colons(ws[1..]), rest);
    Assoc(":", Colons(ws[1..]), rest);
  }

  lemma ColonsStart(ws: seq<string>, rest: string)
    requires forall i :: 0 <= i < |ws| ==> IsWord(ws[i])
    requires NoColonAhead(rest)
    ensures NoColonAhead(Colons(ws) + rest)
  {
    if ws == [] {
      assert Colons(ws) + rest == rest;
    } else {
      ColonsSplit(ws, rest);
      WordStart(ws[0], ":" + (Colons(ws[1..]) + rest));
    }
  }

  lemma {:induction false} SplitColons(ws: seq<string>, rest: string)
    requires forall i :: 0 <= i < |ws| ==> IsWord(ws[i])
    requires NoColonAhead(rest)
    ensures Split(Colons(ws) + rest) == Tagged(ws, ByColon) + Split(rest)
  {
    if ws == [] {
      assert Colons(ws) + rest == rest;
      assert Tagged(ws, ByColon) + Split(rest) == Split(rest);
    } else {
      ColonsSplit(ws, rest);
      ColonsStart(ws[1..], rest);
      SplitColon(ws[0], Colons(ws[1..]) + rest);
      SplitColons(ws[1..], rest);
      Joined(ws, Split(rest));
    }
  }

  lemma Joined(ws: seq<string>, more: seq<Piece>)
    requires ws != []
    ensures [Piece(ws[0], ByColon)] + (Tagged(ws[1..], ByColon) + more) == Tagged(ws, ByColon) + more
  {}

  lemma SplitDotted(tail: seq<string>)
    requires |tail| == 4 && forall i :: 0 <= i < 4 ==> IsDecimal(tail[i])
    ensures Split(Dotted(tail)) == Tagged(tail[..3], ByDot) + [Piece(tail[3], AtEnd)]
    ensures NoColonAhead(Dotted(tail))
  {
    var r2 := tail[2] + ("." + tail[3]);
    var r1 := tail[1] + ("." + r2);
    DottedParts(tail);
    assert forall i :: 0 <= i < 4 ==> AllHex(tail[i]);
    SplitDot(tail[0], r1);
    SplitDot(tail[1], r2);
    SplitDot(tail[2], tail[3]);
    SplitLast(tail[3]);
    ThreeDots(tail);
    WordStart(tail[0], "." + r1);
  }

  lemma DottedParts(tail: seq<string>)
    requires |tail| == 4
    ensures Dotted(tail) == tail[0] + ("." + (tail[1] + ("." + (tail[2] + ("." + tail[3])))))
  {
    var a, b, c := tail[0] + ".", tail[1] + ".", tail[2] + ".";
    Assoc(a + tail[1] + "." + tail[2], ".", tail[3]);
    Assoc(a + tail[1] + ".", tail[2], "." + tail[3]);
    Assoc(a + tail[1], ".", tail[2] + ("." + tail[3]));
    Assoc(a, tail[1], "." + (tail[2] + ("." + tail[3])));
    Assoc(tail[0], ".", tail[1] + ("." + (tail[2] + ("." + tail[3]))));
  }

  lemma ThreeDots(tail: seq<string>)
    requires |tail| == 4
    ensures [Piece(tail[0], ByDot)] + ([Piece(tail[1], ByDot)] + ([Piece(tail[2], ByDot)] + [Piece(tail[3], AtEnd)]))
         == Tagged(tail[..3], ByDot) + [Piece(tail[3], AtEnd)]
  {}

  lemma SplitRest(f: Form)
    requires Shaped(f)
    ensures Split(RestText(f)) == Tagged(RightClosers(f), ByColon) + FormTail(f)
    ensures NoColonAhead(RestText(f))
  {
    if f.tail != [] {
      SplitDotted(f.tail);
      SplitColons(f.right, Dotted(f.tail));
      ColonsStart(f.right, Dotted(f.tail));
    } else if f.right == [] {
      SplitLast("");
    } else {
      var init, w := RightClosers(f), f.right[|f.right| - 1];
      WordStart(w, "");
      assert w + "" == w;
      SplitLast(w);
      SplitColons(init, w);
      ColonsStart(init, w);
    }
  }

  lemma SplitLeadingGap(rest: string)
    ensures Split("" + "::" + rest) == [LEADING_GAP] + Split(rest)
  {
    SplitGap("", rest);
    Assoc("", "::", rest);
  }

  lemma SplitGroups(left: seq<string>, rest: string)
    requires left != [] && forall i :: 0 <= i < |left| ==> IsWord(left[i])
    ensures var n := |left| - 1;
            Split(Separated(left) + "::" + rest) == Tagged(left[..n], ByColon) + [Piece(left[n], ByGap)] + Split(rest)
  {
    SplitGroupsGap(left, rest);
    Assoc(Separated(left), "::", rest);
  }

  lemma SplitHead(f: Form, rest: string)
    requires Shaped(f) && f.gap
    ensures Split(HeadText(f) + rest) == LeftPieces(f) + Split(rest)
  {
    if f.left == [] { SplitLeadingGap(rest); } else { SplitGroups(f.left, rest); }
  }

  lemma SplitText(f: Form)
    requires Shaped(f)
    ensures Split(TextOf(f)) == FormHead(f) + FormTail(f)
  {
    SplitRest(f);
    if f.gap { SplitHead(f, RestText(f)); } else { NoHead(f); }
    Chain(LeftPieces(f), Tagged(RightClosers(f), ByColon), FormTail(f));
  }

  lemma NoHead(f: Form)
    requires Shaped(f) && !f.gap
    ensures TextOf(f) == RestText(f)
  {}

  lemma SplitGroupsGap(left: seq<string>, rest: string)
    requires left != [] && forall i :: 0 <= i < |left| ==> IsWord(left[i])
    ensures var n := |left| - 1;
            Split(Separated(left) + ("::" + rest)) == Tagged(left[..n], ByColon) + [Piece(left[n], ByGap)] + Split(rest)
  {
    var n := |left| - 1;
    var init, w := left[..n], left[n];
    Assoc(Colons(init), w, "::" + rest);
    WordStart(w, "::" + rest);
    SplitColons(init, w + ("::" + rest));
    SplitGap(w, rest);
    Chain(Tagged(init, ByColon), [Piece(w, ByGap)], Split(rest));
  }

  lemma Chain(a: seq<Piece>, b: seq<Piece>, c: seq<Piece>)
    ensures a + (b + c) == (a + b) + c
    ensures [] + c == c
  {}

  // ----- what the reference says of them -----

  lemma CutForm(f: Form)
    requires Shaped(f)
    ensures Head(FormHead(f) + FormTail(f)) == FormHead(f) && Tail(FormHead(f) + FormTail(f)) == FormTail(f)
  {
    var head, tail := FormHead(f), FormTail(f);
    assert AllClose(head);
    assert !Closes(tail[0]);
    assert (head + tail)[|head|] == tail[0];
    assert forall i :: 0 <= i < |head| ==> (head + tail)[i] == head[i];
    assert HeadLength(head + tail) == |head|;
  }

  /** The groups a form closes. */
  function ClosedWords(f: Form): seq<string> {
    f.left + RightClosers(f)
  }

  predicate SameWords(ps: seq<Piece>, ws: seq<string>) {
    |ps| == |ws| && forall i :: 0 <= i < |ws| ==> ps[i].word == ws[i]
  }

  lemma FormClosed(f: Form)
    requires Shaped(f)
    ensures SameWords(Closed(FormHead(f)), ClosedWords(f))
  {
    var head, right := FormHead(f), Tagged(RightClosers(f), ByColon);
    if f.gap && f.left == [] {
      assert head[1..] == right;
    } else if f.gap {
      assert head[0].word == f.left[0];
    } else if head != [] {
      assert head[0] == right[0] && right[0].mark == ByColon;
    }
  }

  lemma GapIs(head: seq<Piece>, k: nat)
    requires k < |head| && head[k].mark == ByGap
    requires forall i :: 0 <= i < |head| && i != k ==> head[i].mark == ByColon
    ensures GapIndex(head) == k && OneGap(head)
  {}

  lemma FormGap(f: Form)
    requires Shaped(f)
    ensures OneGap(FormHead(f)) && GroupsBefore(FormHead(f)) == if f.gap then |f.left| else UNSET
  {
    var head, left := FormHead(f), LeftPieces(f);
    if f.gap {
      LeftPiecesMarks(f);
      assert forall i :: |left| <= i < |head| ==> head[i] == Tagged(RightClosers(f), ByColon)[i - |left|];
      assert forall i :: 0 <= i < |left| ==> head[i] == left[i];
      GapIs(head, |left| - 1);
      assert head[..|left|] == left;
    } else {
      assert head == Tagged(RightClosers(f), ByColon);
    }
  }

  lemma LeftPiecesMarks(f: Form)
    requires Shaped(f) && f.gap
    ensures var left := LeftPieces(f);
            && left != [] && left[|left| - 1].mark == ByGap && |Closed(left)| == |f.left|
            && forall i :: 0 <= i < |left| - 1 ==> left[i].mark == ByColon
  {
    var left := LeftPieces(f);
    if f.left == [] { assert left[1..] == []; } else { assert left[0].word == f.left[0]; }
  }

  lemma WordsGroups(ps: seq<Piece>, ws: seq<string>)
    requires SameWords(ps, ws)
    ensures AllGroups(ps) <==> forall i :: 0 <= i < |ws| ==> GroupOk(ws[i])
    ensures AllGroups(ps) ==> Groups16(ps) == Values(ws)
  {
    if AllGroups(ps) {
      forall i | 0 <= i < |ws| ensures GroupOk(ws[i]) { assert GroupOk(ps[i].word); }
    }
    if forall i :: 0 <= i < |ws| ==> GroupOk(ws[i]) {
      forall i | 0 <= i < |ps| ensures GroupOk(ps[i].word) { assert GroupOk(ws[i]); }
    }
  }

  /** A leading gap is no group, and its word is the empty one. */
  lemma ClosedGroups(head: seq<Piece>)
    ensures AllGroups(head) <==> AllGroups(Closed(head))
  {
    if head != [] && head[0] == LEADING_GAP && AllGroups(Closed(head)) {
      assert forall i :: 1 <= i < |head| ==> head[i] == Closed(head)[i - 1];
    }
  }

  lemma FormHeadOk(f: Form)
    requires Shaped(f)
    ensures HeadOk(FormHead(f)) <==> (forall i :: 0 <= i < |ClosedWords(f)| ==> GroupOk(ClosedWords(f)[i]))
                                     && |ClosedWords(f)| <= 7
    ensures HeadOk(FormHead(f)) ==> Groups16(Closed(FormHead(f))) == Values(ClosedWords(f))
  {
    FormClosed(f);
    FormGap(f);
    ClosedGroups(FormHead(f));
    WordsGroups(Closed(FormHead(f)), ClosedWords(f));
  }

  lemma FormTailOk(f: Form)
    requires Shaped(f)
    ensures TailOk(FormTail(f)) <==>
            if f.tail != [] then forall i :: 0 <= i < 4 ==> OctetOk(f.tail[i])
            else f.right != [] ==> GroupOk(f.right[|f.right| - 1])
    ensures f.tail != [] && TailOk(FormTail(f)) ==> Octets(FormTail(f)) == OctetsOf(f.tail)
  {
    var tail := FormTail(f);
    if f.tail != [] {
      assert forall i :: 0 <= i < 4 ==> tail[i].word == f.tail[i];
      assert forall i :: 0 <= i < 3 ==> tail[i].mark == ByDot;
      if TailOk(tail) {
        forall i | 0 <= i < 4 ensures OctetOk(f.tail[i]) { assert OctetOk(tail[i].word); }
      }
    }
  }

  lemma FormStarts(f: Form)
    requires Shaped(f)
    ensures Starts(FormHead(f), FormTail(f))
  {
    var head, tail := FormHead(f), FormTail(f);
    if f.gap && f.left == [] {
      assert head[0] == LEADING_GAP;
      if |head| > 1 { assert head[1].word == RightClosers(f)[0]; }
    } else if f.gap {
      assert head[0].word == f.left[0];
    } else if head != [] {
      assert head[0].word == f.right[0];
    }
  }

  /** Every word of a form is closed by a colon or a gap, or is the last one. */
  lemma AllWords(f: Form)
    requires Shaped(f)
    ensures ValuesFit(f) <==> (forall i :: 0 <= i < |ClosedWords(f)| ==> GroupOk(ClosedWords(f)[i]))
                              && (if f.tail != [] then forall i :: 0 <= i < 4 ==> OctetOk(f.tail[i])
                                  else f.right != [] ==> GroupOk(f.right[|f.right| - 1]))
  {
    var ws, n := ClosedWords(f), |f.left|;
    if forall i :: 0 <= i < |ws| ==> GroupOk(ws[i]) {
      forall i | 0 <= i < n ensures GroupOk(f.left[i]) { assert ws[i] == f.left[i]; }
      forall i | 0 <= i < |RightClosers(f)| ensures GroupOk(f.right[i]) { assert ws[n + i] == f.right[i]; }
    }
  }

  lemma FormLegible(f: Form)
    requires Shaped(f)
    ensures Legible(FormHead(f), FormTail(f)) <==> ValuesFit(f) && |ClosedWords(f)| <= 7
  {
    FormStarts(f);
    FormHeadOk(f);
    FormTailOk(f);
    AllWords(f);
  }

  /** The groups of a form before they are spread over the address. */
  function AllValues(f: Form): (all: seq<word>)
    requires Shaped(f) && ValuesFit(f)
  {
    if f.tail == [] && f.right == [] then Values(f.left) + [0]
    else Values(f.left) + (Values(f.right) + TailValues(f))
  }

  lemma ValuesConcat(a: seq<string>, b: seq<string>)
    requires forall i :: 0 <= i < |a| ==> GroupOk(a[i])
    requires forall i :: 0 <= i < |b| ==> GroupOk(b[i])
    ensures Values(a + b) == Values(a) + Values(b)
  {}

  lemma TailedWritten(f: Form)
    requires Shaped(f) && ValuesFit(f) && f.tail != []
    ensures TailOk(FormTail(f)) && TailGroups(Values(ClosedWords(f)), FormTail(f)) == TailValues(f)
  {
    FormTailOk(f);
    assert Values(ClosedWords(f)) == [] <==> f.left == [] && f.right == [];
  }

  lemma FormWritten(f: Form)
    requires Shaped(f) && ValuesFit(f) && |ClosedWords(f)| <= 7
    ensures HeadOk(FormHead(f)) && TailOk(FormTail(f)) && Written(FormHead(f), FormTail(f)) == AllValues(f)
  {
    FormLegible(f);
    FormHeadOk(f);
    var groups := Values(ClosedWords(f));
    ValuesConcat(f.left, RightClosers(f));
    assert Written(FormHead(f), FormTail(f)) == groups + TailGroups(groups, FormTail(f));
    if f.tail != [] {
      TailedWritten(f);
      Associate(Values(f.left), Values(f.right), TailValues(f));
    } else if f.right != [] {
      PlainWritten(f);
    } else {
      ZeroGroup();
    }
  }

  lemma ZeroGroup()
    ensures GroupOk("") && GroupValue("") == 0
  {}

  lemma PlainWritten(f: Form)
    requires Shaped(f) && ValuesFit(f) && f.tail == [] && f.right != []
    ensures Values(f.left) + Values(RightClosers(f)) + [GroupValue(f.right[|f.right| - 1])]
         == Values(f.left) + (Values(f.right) + [])
  {
    var last := GroupValue(f.right[|f.right| - 1]);
    assert Values(RightClosers(f)) + [last] == Values(f.right) == Values(f.right) + [];
    Associate(Values(f.left), Values(RightClosers(f)), [last]);
  }

  lemma Associate(a: seq<word>, b: seq<word>, c: seq<word>)
    ensures (a + b) + c == a + (b + c)
  {}

  lemma SpreadPlain(left: seq<word>)
    requires |left| <= 7
    ensures Spread(left + [0], |left|) == left + Zeros(8 - |left|)
  {
    assert (left + [0])[..|left|] == left && (left + [0])[|left|..] == [0];
    assert Zeros(7 - |left|) + [0] == Zeros(8 - |left|);
    assert left + Zeros(7 - |left|) + [0] == left + (Zeros(7 - |left|) + [0]);
  }

  lemma SpreadSplit(left: seq<word>, right: seq<word>)
    requires |left| + |right| <= 8
    ensures Spread(left + right, |left|) == left + Zeros(8 - |left| - |right|) + right
  {
    assert (left + right)[..|left|] == left && (left + right)[|left|..] == right;
  }

  lemma TailCount(f: Form)
    requires WellFormed(f)
    ensures |f.left| + |f.right| + |TailValues(f)| <= 8
    ensures |f.right| + |TailValues(f)| == 0 <==> f.tail == [] && f.right == []
  {}

  lemma SpreadParts(all: seq<word>, left: seq<word>, right: seq<word>, g: seq<word>)
    requires |left| <= 7 && |left| + |right| <= 8
    requires all == if |right| == 0 then left + [0] else left + right
    requires g == left + Zeros(8 - |left| - |right|) + right
    ensures |left| <= |all| <= 8 && Spread(all, |left|) == g
  {
    if right == [] { SpreadPlain(left); } else { SpreadSplit(left, right); }
  }

  lemma SpreadMeans(f: Form)
    requires WellFormed(f)
    ensures |f.left| <= |AllValues(f)| <= 8 && Spread(AllValues(f), |f.left|) == Meaning(f)
  {
    TailCount(f);
    SpreadParts(AllValues(f), Values(f.left), Values(f.right) + TailValues(f), Meaning(f));
  }

  function Verdict(f: Form): Outcome
    requires Shaped(f)
  {
    if !ValuesFit(f) then Rejected
    else if CountFits(f) then Parsed(Bytes(Meaning(f)))
    else if f.tail != [] && |f.left| + |f.right| == 7 then Overrun
    else Rejected
  }

  lemma FormAddress(f: Form)
    requires Shaped(f)
    ensures Address(FormHead(f), FormTail(f)) == Verdict(f)
  {
    FormLegible(f);
    if ValuesFit(f) && |ClosedWords(f)| <= 7 {
      FormWritten(f);
      FormGap(f);
      if CountFits(f) { SpreadMeans(f); }
    }
  }

  /**
    The verdict on every list of hex words with at most one gap and a decimal tail, however long the
    list and its words: refused when a word is too large modulo 2^32, else the address the form
    means when the pieces fit, out of bounds with exactly seven groups before a tail, and refused
    otherwise. The gap stands for as many zero groups as are missing, none included; without a gap
    the groups are right-aligned.
   */
  lemma FormVerdict(f: Form)
    requires Shaped(f)
    ensures Parse(TextOf(f)) == if !ValuesFit(f) then Rejected
                                else if CountFits(f) then Parsed(Bytes(Meaning(f)))
                                else if f.tail != [] && |f.left| + |f.right| == 7 then Overrun
                                else Rejected
  {
    ParserMeetsReference(TextOf(f));
    SplitText(f);
    CutForm(f);
    FormAddress(f);
  }
}
