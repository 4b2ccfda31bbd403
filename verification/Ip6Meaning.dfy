/** What the IPv6 parser accepts and what it reads, in characters and numbers. */
module Ip6Meaning {
  import opened Text
  import opened Ip6Parser
  import opened Ip6Reference

  /** How a text splits: at ":", "::" and ".", the longer mark first. */
  lemma SplitExactly(w: string, rest: string)
    requires ':' !in w && '.' !in w
    ensures Split(w) == [Piece(w, AtEnd)]
    ensures rest == "" || rest[0] != ':' ==> Split(w + (":" + rest)) == [Piece(w, ByColon)] + Split(rest)
    ensures Split(w + ("::" + rest)) == [Piece(w, ByGap)] + Split(rest)
    ensures Split(w + ("." + rest)) == [Piece(w, ByDot)] + Split(rest)
  {
    assert forall i :: 0 <= i < |w| ==> w[i] in w;
    assert Plain(w);
    assert WordLength(w) == |w|;
    SplitWord(w, ":" + rest);
    SplitWord(w, "::" + rest);
    SplitWord(w, "." + rest);
    assert (":" + rest)[1..] == rest && ("::" + rest)[2..] == rest && ("." + rest)[1..] == rest;
  }

  /** All marks but the last are colons or gaps. */
  predicate NoDots(ps: seq<Piece>) {
    forall i :: 0 <= i < |ps| - 1 ==> ps[i].mark != ByDot
  }

  /** Exactly the last three marks are dots. */
  predicate ThreeDots(ps: seq<Piece>) {
    |ps| >= 4 && forall i :: 0 <= i < |ps| - 1 ==> (ps[i].mark == ByDot <==> i >= |ps| - 4)
  }

  lemma CutNoDots(ps: seq<Piece>)
    requires Whole(ps)
    ensures NoDots(ps) <==> HeadLength(ps) == |ps| - 1
    ensures ThreeDots(ps) <==> HeadLength(ps) == |ps| - 4 && forall i :: 0 <= i < 3 ==> Tail(ps)[i].mark == ByDot
  {
    var h, n := HeadLength(ps), |ps|;
    assert !Closes(ps[n - 1]);
    if NoDots(ps) { assert forall i :: 0 <= i < n - 1 ==> Closes(ps[i]); }
    CutThreeDots(ps, h, Tail(ps));
  }

  lemma CutThreeDots(ps: seq<Piece>, h: nat, tail: seq<Piece>)
    requires Whole(ps) && h < |ps| && tail == ps[h..] && !Closes(ps[h]) && forall i :: 0 <= i < h ==> Closes(ps[i])
    ensures ThreeDots(ps) <==> h == |ps| - 4 && forall i :: 0 <= i < 3 ==> tail[i].mark == ByDot
  {
    var n := |ps|;
    if ThreeDots(ps) {
      assert forall i :: 0 <= i < n - 4 ==> Closes(ps[i]);
      assert !Closes(ps[n - 4]);
      assert forall i :: n - 4 <= i < n - 1 ==> ps[i].mark == ByDot;
    }
    if h == n - 4 && forall i :: 0 <= i < 3 ==> tail[i].mark == ByDot {
      forall i | n - 4 <= i < n - 1 ensures ps[i].mark == ByDot { assert tail[i - h].mark == ByDot; }
    }
  }

  /**
    What is accepted, in characters and numbers. The text starts with a word, or with "::" and then a
    word or nothing; it has at most one "::"; it has no dots, or exactly its last three marks are
    dots; every word is hex digits, and in its low 32 bits at most 255 in base 10 next to a dot and at
    most ffff in base 16 elsewhere; and at most seven words stand in front of the last one or of the
    octets, not counting the nothing in front of a leading "::".
   */
  lemma AcceptsExactly(s: string)
    ensures var ps := Split(s);
            var n := |ps|;
            Parse(s) != Rejected <==>
              && (ps[0].word != "" || (ps[0].mark == ByGap && (n == 2 || ps[1].word != "")))
              && (forall i, j :: 0 <= i < j < n ==> ps[i].mark != ByGap || ps[j].mark != ByGap)
              && var dots := exists i :: 0 <= i < n && ps[i].mark == ByDot;
                 && (dots ==> n >= 4 && forall i :: 0 <= i < n - 1 ==> (ps[i].mark == ByDot <==> i >= n - 4))
                 && (forall i :: 0 <= i < n ==> AllHex(ps[i].word))
                 && (forall i :: 0 <= i < n ==>
                       if dots && i >= n - 4 then DecVal(ps[i].word) % 0x1_0000_0000 <= 255
                       else HexVal(ps[i].word) % 0x1_0000_0000 <= 0xffff)
                 && n - (if dots then 4 else 1) - (if ps[0] == Piece("", ByGap) then 1 else 0) <= 7
  {
    var ps := Split(s);
    OverrunExactly(s);
    InCharacters(ps, exists i :: 0 <= i < |ps| && ps[i].mark == ByDot);
  }

  /** The writes leave the group array for exactly seven groups in front of the octets of a dotted tail. */
  lemma OverrunIs(s: string, ps: seq<Piece>)
    requires ps == Split(s)
    ensures Parse(s) == Overrun <==>
            && Parse(s) != Rejected && (exists i :: 0 <= i < |ps| && ps[i].mark == ByDot)
            && |ps| - 4 - (if ps[0] == Piece("", ByGap) then 1 else 0) == 7
  {
    OverrunExactly(s);
    if Legible(Head(ps), Tail(ps)) {
      LegibleExactly(ps);
      CutNoDots(ps);
      ClosedCount(ps);
      assert ps[|ps| - 1].mark == AtEnd;
      if ThreeDots(ps) { assert ps[|ps| - 4].mark == ByDot; }
    }
  }

  lemma InCharacters(ps: seq<Piece>, dots: bool)
    requires Whole(ps) && (dots <==> exists i :: 0 <= i < |ps| && ps[i].mark == ByDot)
    ensures Legible(Head(ps), Tail(ps)) <==>
            && (ps[0].word != "" || (ps[0].mark == ByGap && (|ps| == 2 || ps[1].word != "")))
            && (forall i, j :: 0 <= i < j < |ps| ==> ps[i].mark != ByGap || ps[j].mark != ByGap)
            && (dots ==> |ps| >= 4 && forall i :: 0 <= i < |ps| - 1 ==> (ps[i].mark == ByDot <==> i >= |ps| - 4))
            && (forall i :: 0 <= i < |ps| ==> AllHex(ps[i].word))
            && (forall i :: 0 <= i < |ps| ==>
                  if dots && i >= |ps| - 4 then DecVal(ps[i].word) % 0x1_0000_0000 <= 255
                  else HexVal(ps[i].word) % 0x1_0000_0000 <= 0xffff)
            && |ps| - (if dots then 4 else 1) - (if ps[0] == Piece("", ByGap) then 1 else 0) <= 7
  {
    LegibleExactly(ps);
    WordsInCharacters(ps, dots);
    assert ps[|ps| - 1].mark == AtEnd;
    if dots {
      assert !NoDots(ps);
      assert ThreeDots(ps) <==> |ps| >= 4 && forall i :: 0 <= i < |ps| - 1 ==> (ps[i].mark == ByDot <==> i >= |ps| - 4);
    } else {
      assert NoDots(ps) && !ThreeDots(ps) by { if |ps| >= 4 { assert ps[|ps| - 2].mark != ByDot; } }
    }
  }

  lemma WordsInCharacters(ps: seq<Piece>, dots: bool)
    ensures (forall i :: 0 <= i < |ps| ==> if dots && i >= |ps| - 4 then OctetOk(ps[i].word) else GroupOk(ps[i].word))
       <==> (forall i :: 0 <= i < |ps| ==> AllHex(ps[i].word))
            && forall i :: 0 <= i < |ps| ==>
                 if dots && i >= |ps| - 4 then DecVal(ps[i].word) % 0x1_0000_0000 <= 255
                 else HexVal(ps[i].word) % 0x1_0000_0000 <= 0xffff
  {
    if forall i :: 0 <= i < |ps| ==> if dots && i >= |ps| - 4 then OctetOk(ps[i].word) else GroupOk(ps[i].word) {
      forall i | 0 <= i < |ps| ensures AllHex(ps[i].word) {
        assert if dots && i >= |ps| - 4 then OctetOk(ps[i].word) else GroupOk(ps[i].word);
      }
    }
  }

  lemma LegibleExactly(ps: seq<Piece>)
    requires Whole(ps)
    ensures Legible(Head(ps), Tail(ps)) <==>
            && (ps[0].word != "" || (ps[0].mark == ByGap && (|ps| == 2 || ps[1].word != "")))
            && (forall i, j :: 0 <= i < j < |ps| ==> ps[i].mark != ByGap || ps[j].mark != ByGap)
            && (NoDots(ps) || ThreeDots(ps))
            && (forall i :: 0 <= i < |ps| ==> if ThreeDots(ps) && i >= |ps| - 4 then OctetOk(ps[i].word) else GroupOk(ps[i].word))
            && |ps| - (if ThreeDots(ps) then 4 else 1) - (if ps[0] == LEADING_GAP then 1 else 0) <= 7
  {
    CutNoDots(ps);
    assert TailOk(Tail(ps)) ==> NoDots(ps) || ThreeDots(ps);
    if NoDots(ps) || ThreeDots(ps) {
      StartsExactly(ps);
      GapsExactly(ps);
      WordsExactly(ps);
      ClosedCount(ps);
    }
  }

  lemma ClosedCount(ps: seq<Piece>)
    requires Whole(ps) && (NoDots(ps) || ThreeDots(ps))
    ensures |Closed(Head(ps))| == |ps| - (if ThreeDots(ps) then 4 else 1) - (if ps[0] == LEADING_GAP then 1 else 0)
  {
    CutNoDots(ps);
    if ThreeDots(ps) { assert ps[|ps| - 4].mark == ByDot; }
    assert !Closes(ps[|ps| - 1]);
  }

  lemma StartsExactly(ps: seq<Piece>)
    requires Whole(ps)
    ensures Starts(Head(ps), Tail(ps)) <==>
            ps[0].word != "" || (ps[0].mark == ByGap && (|ps| == 2 || ps[1].word != ""))
  {
    var head, tail := Head(ps), Tail(ps);
    var h := |head|;
    assert forall i :: 0 <= i < |tail| ==> tail[i] == ps[h + i];
    assert forall i :: 0 <= i < h ==> head[i] == ps[i];
    assert !Closes(ps[|ps| - 1]);
  }

  lemma GapsExactly(ps: seq<Piece>)
    requires Whole(ps) && (NoDots(ps) || ThreeDots(ps))
    ensures OneGap(Head(ps)) <==> forall i, j :: 0 <= i < j < |ps| ==> ps[i].mark != ByGap || ps[j].mark != ByGap
  {
    var head := Head(ps);
    CutNoDots(ps);
    assert forall i :: |head| <= i < |ps| ==> ps[i].mark != ByGap;
    assert forall i :: 0 <= i < |head| ==> head[i] == ps[i];
    if forall i, j :: 0 <= i < j < |ps| ==> ps[i].mark != ByGap || ps[j].mark != ByGap {
      forall i | GapIndex(head) < i < |head| ensures head[i].mark != ByGap { assert ps[GapIndex(head)].mark == ByGap; }
    }
  }

  lemma WordsExactly(ps: seq<Piece>)
    requires Whole(ps) && (NoDots(ps) || ThreeDots(ps))
    ensures AllGroups(Head(ps)) && TailOk(Tail(ps)) <==>
            forall i :: 0 <= i < |ps| ==> if ThreeDots(ps) && i >= |ps| - 4 then OctetOk(ps[i].word) else GroupOk(ps[i].word)
  {
    CutNoDots(ps);
    assert !Closes(ps[|ps| - 1]);
    if ThreeDots(ps) {
      assert ps[|ps| - 4].mark == ByDot;
      WordsDotted(ps, |ps| - 4);
    } else {
      WordsPlain(ps, |ps| - 1);
    }
  }

  lemma WordsPlain(ps: seq<Piece>, h: nat)
    requires |ps| == h + 1
    ensures AllGroups(ps[..h]) && GroupOk(ps[h..][0].word) <==> forall i :: 0 <= i < |ps| ==> GroupOk(ps[i].word)
  {
    if AllGroups(ps[..h]) && GroupOk(ps[h..][0].word) {
      forall i | 0 <= i < |ps| ensures GroupOk(ps[i].word) { if i < h { assert GroupOk(ps[..h][i].word); } }
    }
    if forall i :: 0 <= i < |ps| ==> GroupOk(ps[i].word) {
      forall i | 0 <= i < h ensures GroupOk(ps[..h][i].word) { assert GroupOk(ps[i].word); }
    }
  }

  lemma WordsDotted(ps: seq<Piece>, h: nat)
    requires |ps| == h + 4
    ensures AllGroups(ps[..h]) && AllOctets(ps[h..]) <==>
            forall i :: 0 <= i < |ps| ==> if i >= h then OctetOk(ps[i].word) else GroupOk(ps[i].word)
  {
    if AllGroups(ps[..h]) && AllOctets(ps[h..]) {
      forall i | 0 <= i < |ps| ensures if i >= h then OctetOk(ps[i].word) else GroupOk(ps[i].word) {
        if i < h { assert GroupOk(ps[..h][i].word); } else { assert OctetOk(ps[h..][i - h].word); }
      }
    }
    if forall i :: 0 <= i < |ps| ==> if i >= h then OctetOk(ps[i].word) else GroupOk(ps[i].word) {
      forall i | 0 <= i < h ensures GroupOk(ps[..h][i].word) { assert GroupOk(ps[i].word); }
      forall i | 0 <= i < 4 ensures OctetOk(ps[h..][i].word) { assert OctetOk(ps[h + i].word); }
    }
  }

  /** The words of a head, but for the nothing in front of a leading gap, are its groups. */
  lemma HeadWord(head: seq<Piece>, first: nat, j: nat)
    requires AllGroups(head) && first == if head != [] && head[0] == LEADING_GAP then 1 else 0
    requires j + first < |head|
    ensures |Groups16(Closed(head))| == |head| - first
    ensures AllHex(head[first + j].word) && Groups16(Closed(head))[j] == HexVal(head[first + j].word) % 0x1_0000_0000
  {
    assert Closed(head)[j] == head[first + j];
    assert GroupOk(head[first + j].word);
  }

  /** `before` groups stand in front of the gap, or there is no gap. */
  predicate GapAfter(ps: seq<Piece>, first: nat, before: nat) {
    if forall i :: 0 <= i < |ps| ==> ps[i].mark != ByGap then before == 0
    else 1 <= before + first <= |ps| && ps[before + first - 1].mark == ByGap
  }

  lemma BeforeIs(head: seq<Piece>, first: nat, before: nat)
    requires OneGap(head) && GapAfter(head, first, before)
    requires first == if head != [] && head[0] == LEADING_GAP then 1 else 0
    ensures before == (if GroupsBefore(head) == UNSET then 0 else GroupsBefore(head)) && before + first <= |head|
  {
    if exists i :: 0 <= i < |head| && head[i].mark == ByGap {
      var gap := before + first - 1;
      assert GapIndex(head) == gap;
      assert head[..gap + 1] == head[..before + first];
    }
  }

  lemma SpreadAt(all: seq<word>, before: nat, b: seq<byte>, i: nat)
    requires before <= |all| <= 8 && b == Bytes(Spread(all, before)) && i < 8
    ensures |b| == 16
    ensures b[2 * i] as int * 0x100 + b[2 * i + 1] as int ==
            if i < before then all[i] else if i < before + (8 - |all|) then 0 else all[i - (8 - |all|)]
  {
    BytesAt(Spread(all, before), i);
  }

  /** Every text has such numbers. */
  lemma GapPlace(ps: seq<Piece>) returns (first: nat, before: nat)
    requires ps != []
    ensures first == (if ps[0] == Piece("", ByGap) then 1 else 0) && GapAfter(ps, first, before)
  {
    first := if ps[0] == LEADING_GAP then 1 else 0;
    var gap := GapIndex(ps);
    before := if gap == |ps| then 0 else gap + 1 - first;
  }

  lemma GapInHead(ps: seq<Piece>, first: nat, before: nat)
    requires Whole(ps) && (NoDots(ps) || ThreeDots(ps)) && GapAfter(ps, first, before)
    ensures GapAfter(Head(ps), first, before)
  {
    CutNoDots(ps);
    var h := HeadLength(ps);
    assert ps[|ps| - 1].mark == AtEnd;
    if ThreeDots(ps) { assert forall i :: |ps| - 4 <= i < |ps| - 1 ==> ps[i].mark == ByDot; }
    assert forall i :: 0 <= i < h ==> Head(ps)[i] == ps[i];
    assert forall i :: h <= i < |ps| ==> ps[i].mark != ByGap;
  }

  /** The groups that the text writes are spread over the address. */
  predicate Cut(head: seq<Piece>, tail: seq<Piece>, b: seq<byte>, first: nat, before: nat) {
    && first == (if head != [] && head[0] == LEADING_GAP then 1 else 0)
    && HeadOk(head) && TailOk(tail) && before + first <= |head|
    && before <= |Written(head, tail)| <= 8 && b == Bytes(Spread(Written(head, tail), before))
  }

  lemma CutAt(head: seq<Piece>, tail: seq<Piece>, b: seq<byte>, first: nat, before: nat)
    requires tail != [] && Address(head, tail) == Parsed(b) && GapAfter(head, first, before)
    requires first == if head != [] && head[0] == LEADING_GAP then 1 else 0
    ensures Cut(head, tail, b, first, before)
  {
    BeforeIs(head, first, before);
  }

  lemma Parts(ps: seq<Piece>)
    requires Whole(ps) && Legible(Head(ps), Tail(ps))
    ensures NoDots(ps) || ThreeDots(ps)
    ensures |Tail(ps)| == if NoDots(ps) then 1 else 4
  {
    CutNoDots(ps);
  }

  /** Where an accepted text is cut. */
  lemma AcceptedParts(s: string, ps: seq<Piece>, b: seq<byte>, first: nat, before: nat)
    requires ps == Split(s) && Parse(s) == Parsed(b)
    requires first == (if ps[0] == Piece("", ByGap) then 1 else 0) && GapAfter(ps, first, before)
    ensures |Tail(ps)| == (if NoDots(ps) then 1 else 4) && Cut(Head(ps), Tail(ps), b, first, before)
  {
    ParserMeetsReference(s);
    Parts(ps);
    GapInHead(ps, first, before);
    assert first == if Head(ps) != [] && Head(ps)[0] == LEADING_GAP then 1 else 0;
    CutAt(Head(ps), Tail(ps), b, first, before);
  }

  lemma PlainLength(ps: seq<Piece>, head: seq<Piece>, end: Piece, first: nat)
    requires ps == head + [end] && HeadOk(head) && TailOk([end])
    requires first == if head != [] && head[0] == LEADING_GAP then 1 else 0
    ensures |Written(head, [end])| == |ps| - first
  {}

  lemma PlainWord(ps: seq<Piece>, head: seq<Piece>, end: Piece, first: nat, j: nat, all: seq<word>)
    requires ps == head + [end] && HeadOk(head) && TailOk([end]) && all == Written(head, [end])
    requires first == if head != [] && head[0] == LEADING_GAP then 1 else 0
    requires j < |all| == |ps| - first
    ensures AllHex(ps[first + j].word) && all[j] == HexVal(ps[first + j].word) % 0x1_0000_0000
  {
    if first + j < |head| { HeadWord(head, first, j); }
  }

  /**
    What an accepted text without dots means, for each place `i` of the address. The words of the text
    are its groups, but for the nothing in front of a leading "::". The groups in front of "::" stay
    at the front, all others are moved to the end, and what is left between them is zero. A group is
    its hex number modulo 2^32, with the high byte first.
   */
  lemma AcceptedGroup(s: string, ps: seq<Piece>, b: seq<byte>, first: nat, before: nat, i: nat)
    requires ps == Split(s) && Parse(s) == Parsed(b) && i < 8
    requires forall j :: 0 <= j < |ps| ==> ps[j].mark != ByDot
    requires first == if ps[0] == Piece("", ByGap) then 1 else 0
    requires if forall j :: 0 <= j < |ps| ==> ps[j].mark != ByGap then before == 0
             else 1 <= before + first <= |ps| && ps[before + first - 1].mark == ByGap
    ensures var n := |ps| - first;
            && |b| == 16 && before < n <= 8
            && (before <= i < before + (8 - n) ==> b[2 * i] == 0 == b[2 * i + 1])
            && (!(before <= i < before + (8 - n)) ==>
                  var w := ps[first + if i < before then i else i - (8 - n)].word;
                  AllHex(w) && b[2 * i] as int * 0x100 + b[2 * i + 1] as int == HexVal(w) % 0x1_0000_0000)
  {
    AcceptedParts(s, ps, b, first, before);
    assert NoDots(ps);
    OneTail(ps, HeadLength(ps));
    CutPlain(ps, Head(ps), ps[|ps| - 1], b, first, before, i);
  }

  lemma PlainPlaces(ps: seq<Piece>, first: nat, before: nat, all: seq<word>, b: seq<byte>, i: nat)
    requires before < |all| <= 8 && |all| + first == |ps| && b == Bytes(Spread(all, before)) && i < 8
    requires forall j :: 0 <= j < |all| ==>
               AllHex(ps[first + j].word) && all[j] == HexVal(ps[first + j].word) % 0x1_0000_0000
    ensures |b| == 16
    ensures var n := |ps| - first;
            && (before <= i < before + (8 - n) ==> b[2 * i] == 0 == b[2 * i + 1])
            && (!(before <= i < before + (8 - n)) ==>
                  var w := ps[first + if i < before then i else i - (8 - n)].word;
                  AllHex(w) && b[2 * i] as int * 0x100 + b[2 * i + 1] as int == HexVal(w) % 0x1_0000_0000)
  {
    SpreadAt(all, before, b, i);
  }

  lemma PlainWords(ps: seq<Piece>, head: seq<Piece>, end: Piece, b: seq<byte>, first: nat, before: nat) returns (all: seq<word>)
    requires ps == head + [end] && Cut(head, [end], b, first, before)
    ensures before < |all| <= 8 && |all| + first == |ps| && b == Bytes(Spread(all, before))
    ensures forall j :: 0 <= j < |all| ==>
              AllHex(ps[first + j].word) && all[j] == HexVal(ps[first + j].word) % 0x1_0000_0000
  {
    all := Written(head, [end]);
    PlainLength(ps, head, end, first);
    forall j | 0 <= j < |all|
      ensures AllHex(ps[first + j].word) && all[j] == HexVal(ps[first + j].word) % 0x1_0000_0000
    {
      PlainWord(ps, head, end, first, j, all);
    }
  }

  lemma CutPlain(ps: seq<Piece>, head: seq<Piece>, end: Piece, b: seq<byte>, first: nat, before: nat, i: nat)
    requires ps == head + [end] && Cut(head, [end], b, first, before) && i < 8
    ensures var n := |ps| - first;
            && |b| == 16 && before < n <= 8
            && (before <= i < before + (8 - n) ==> b[2 * i] == 0 == b[2 * i + 1])
            && (!(before <= i < before + (8 - n)) ==>
                  var w := ps[first + if i < before then i else i - (8 - n)].word;
                  AllHex(w) && b[2 * i] as int * 0x100 + b[2 * i + 1] as int == HexVal(w) % 0x1_0000_0000)
  {
    var all := PlainWords(ps, head, end, b, first, before);
    PlainPlaces(ps, first, before, all, b, i);
  }

  /** The groups that a text with a dotted tail writes. */
  function WithTail(groups: seq<word>, octets: seq<byte>): (r: seq<word>)
    requires |octets| == 4
    ensures |r| == if groups == [] then 3 else |groups| + 2
  {
    groups + (if groups == [] then [0xffff] else []) + Quad(octets)
  }

  lemma WithTailSpread(groups: seq<word>, octets: seq<byte>, before: nat, b: seq<byte>, i: nat)
    requires |octets| == 4 && before <= |groups| <= 6 && b == Bytes(Spread(WithTail(groups, octets), before)) && i < 6
    ensures |b| == 16
    ensures b[2 * i] as int * 0x100 + b[2 * i + 1] as int ==
            if groups == [] then if i < 5 then 0 else 0xffff
            else if i < before then groups[i] else if i < before + (6 - |groups|) then 0 else groups[i - (6 - |groups|)]
  {
    SpreadAt(WithTail(groups, octets), before, b, i);
  }

  lemma WithTailEnd(groups: seq<word>, octets: seq<byte>, before: nat, b: seq<byte>, j: nat)
    requires |octets| == 4 && before <= |groups| <= 6 && b == Bytes(Spread(WithTail(groups, octets), before)) && j < 4
    ensures |b| == 16 && b[12 + j] == octets[j]
  {
    var all, k := WithTail(groups, octets), 6 + j / 2;
    BytesAt(Spread(all, before), k);
    assert Spread(all, before)[k] == all[|all| - 2 + j / 2] == Quad(octets)[j / 2];
  }

  lemma TailOctets(head: seq<Piece>, tail: seq<Piece>, b: seq<byte>, first: nat, before: nat)
    requires |tail| == 4 && Cut(head, tail, b, first, before)
    ensures AllGroups(head) && |Groups16(Closed(head))| == |head| - first <= 6
    ensures AllOctets(tail) && b == Bytes(Spread(WithTail(Groups16(Closed(head)), Octets(tail)), before))
  {
    var groups := Groups16(Closed(head));
    assert Written(head, tail) == groups + TailGroups(groups, tail) == WithTail(groups, Octets(tail));
  }

  lemma CutGroup(ps: seq<Piece>, head: seq<Piece>, tail: seq<Piece>, b: seq<byte>, first: nat, before: nat, i: nat)
    requires ps == head + tail && |tail| == 4 && Cut(head, tail, b, first, before) && i < 6
    ensures var n := |ps| - 4 - first;
            && |b| == 16 && before <= n <= 6
            && (n == 0 ==> b[2 * i] == b[2 * i + 1] == if i < 5 then 0 else 0xff)
            && (n != 0 && before <= i < before + (6 - n) ==> b[2 * i] == 0 == b[2 * i + 1])
            && (n != 0 && !(before <= i < before + (6 - n)) ==>
                  var w := ps[first + if i < before then i else i - (6 - n)].word;
                  AllHex(w) && b[2 * i] as int * 0x100 + b[2 * i + 1] as int == HexVal(w) % 0x1_0000_0000)
  {
    var n := |ps| - 4 - first;
    TailOctets(head, tail, b, first, before);
    WithTailSpread(Groups16(Closed(head)), Octets(tail), before, b, i);
    if n != 0 && !(before <= i < before + (6 - n)) {
      HeadWord(head, first, if i < before then i else i - (6 - n));
    }
  }

  lemma CutOctet(head: seq<Piece>, tail: seq<Piece>, b: seq<byte>, first: nat, before: nat, j: nat)
    requires |tail| == 4 && Cut(head, tail, b, first, before) && j < 4
    ensures |b| == 16 && AllHex(tail[j].word) && b[12 + j] == DecVal(tail[j].word) % 0x1_0000_0000
  {
    TailOctets(head, tail, b, first, before);
    WithTailEnd(Groups16(Closed(head)), Octets(tail), before, b, j);
    assert OctetOk(tail[j].word);
  }

  lemma OneTail(ps: seq<Piece>, h: nat)
    requires |ps| == h + 1
    ensures ps[h..] == [ps[|ps| - 1]] && ps[..h] + [ps[|ps| - 1]] == ps
  {}

  lemma HeadAndTail(ps: seq<Piece>, h: nat)
    requires h <= |ps|
    ensures ps[..h] + ps[h..] == ps
  {}

  lemma Dotted(ps: seq<Piece>)
    requires Whole(ps) && exists k :: 0 <= k < |ps| && ps[k].mark == ByDot
    ensures !NoDots(ps)
  {
    assert ps[|ps| - 1].mark == AtEnd;
  }

  /**
    What an accepted text with a dotted tail means, for each place `i` of the first six groups. The
    words in front of the octets are groups, spread as above over six places. Without any group the
    sixth group is ffff and the address an IPv4-mapped one.
   */
  lemma AcceptedDotted(s: string, ps: seq<Piece>, b: seq<byte>, first: nat, before: nat, i: nat)
    requires ps == Split(s) && Parse(s) == Parsed(b) && i < 6
    requires exists k :: 0 <= k < |ps| && ps[k].mark == ByDot
    requires first == if ps[0] == Piece("", ByGap) then 1 else 0
    requires if forall k :: 0 <= k < |ps| ==> ps[k].mark != ByGap then before == 0
             else 1 <= before + first <= |ps| && ps[before + first - 1].mark == ByGap
    ensures var n := |ps| - 4 - first;
            && |b| == 16 && before <= n <= 6
            && (n == 0 ==> b[2 * i] == b[2 * i + 1] == if i < 5 then 0 else 0xff)
            && (n != 0 && before <= i < before + (6 - n) ==> b[2 * i] == 0 == b[2 * i + 1])
            && (n != 0 && !(before <= i < before + (6 - n)) ==>
                  var w := ps[first + if i < before then i else i - (6 - n)].word;
                  AllHex(w) && b[2 * i] as int * 0x100 + b[2 * i + 1] as int == HexVal(w) % 0x1_0000_0000)
  {
    Dotted(ps);
    AcceptedParts(s, ps, b, first, before);
    HeadAndTail(ps, HeadLength(ps));
    CutGroup(ps, Head(ps), Tail(ps), b, first, before, i);
  }

  /** The octets of an accepted text with a dotted tail are read in base 10 into the last four bytes. */
  lemma AcceptedOctet(s: string, ps: seq<Piece>, b: seq<byte>, j: nat)
    requires ps == Split(s) && Parse(s) == Parsed(b) && j < 4
    requires exists k :: 0 <= k < |ps| && ps[k].mark == ByDot
    ensures |ps| >= 4 && |b| == 16 && AllHex(ps[|ps| - 4 + j].word)
    ensures b[12 + j] == DecVal(ps[|ps| - 4 + j].word) % 0x1_0000_0000
  {
    var first, before := GapPlace(ps);
    Dotted(ps);
    AcceptedParts(s, ps, b, first, before);
    HeadAndTail(ps, HeadLength(ps));
    CutOctet(Head(ps), Tail(ps), b, first, before, j);
    assert ps[|ps| - 4 + j] == Tail(ps)[j];
  }
}
