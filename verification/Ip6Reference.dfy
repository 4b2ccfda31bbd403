/**
  What the IPv6 parser accepts and what it makes of it, on whole texts: a reference definition that
  splits the text into words and does not mention the automaton.
 */
module Ip6Reference {
  import opened Text
  import opened Ip6Parser

  /** What ends a word; "::" is taken before ":". */
  datatype Mark = ByColon | ByGap | ByDot | AtEnd
  datatype Piece = Piece(word: string, mark: Mark)

  predicate IsMark(c: char) {
    c == ':' || c == '.'
  }

  predicate Plain(w: string) {
    forall i :: 0 <= i < |w| ==> !IsMark(w[i])
  }

  function WordEnd(s: string, from: nat): (n: nat)
    requires from <= |s|
    ensures from <= n <= |s| && (n < |s| ==> IsMark(s[n]))
    ensures forall i :: from <= i < n ==> !IsMark(s[i])
    decreases |s| - from
  {
    if from == |s| || IsMark(s[from]) then from else WordEnd(s, from + 1)
  }

  function WordLength(s: string): (n: nat)
    ensures n <= |s| && Plain(s[..n]) && (n < |s| ==> IsMark(s[n]))
  {
    WordEnd(s, 0)
  }

  function MarkOf(s: string): Mark
    requires s != "" && IsMark(s[0])
  {
    if s[0] == '.' then ByDot else if Gap(s) then ByGap else ByColon
  }

  /** The words of a text, each with the mark that ends it. */
  function Split(s: string): (ps: seq<Piece>)
    ensures Whole(ps)
    decreases |s|
  {
    var n := WordLength(s);
    if n == |s| then [Piece(s, AtEnd)]
    else
      var more := s[n..];
      var rest := Split(more[Width(more)..]);
      [Piece(s[..n], MarkOf(more))] + rest
  }

  /** Only the last piece is ended by the end of the text. */
  predicate Whole(ps: seq<Piece>) {
    ps != [] && ps[|ps| - 1].mark == AtEnd && forall i :: 0 <= i < |ps| - 1 ==> ps[i].mark != AtEnd
  }

  // ----- which lists of pieces are an address -----

  /** A group, empty words counting as 0: only the low 32 bits are judged. */
  predicate GroupOk(w: string) {
    AllHex(w) && HexVal(w) % U32 <= 0xffff
  }

  function GroupValue(w: string): word
    requires GroupOk(w)
  {
    HexVal(w) % U32
  }

  /** An octet: hex letters are taken as the digits 10 to 15 of a decimal number. */
  predicate OctetOk(w: string) {
    AllHex(w) && DecVal(w) % U32 <= 0xff
  }

  function OctetValue(w: string): byte
    requires OctetOk(w)
  {
    DecVal(w) % U32
  }

  predicate AllGroups(ps: seq<Piece>) {
    forall i :: 0 <= i < |ps| ==> GroupOk(ps[i].word)
  }

  function Groups16(ps: seq<Piece>): (r: seq<word>)
    requires AllGroups(ps)
    ensures |r| == |ps|
  {
    seq(|ps|, i requires 0 <= i < |ps| && GroupOk(ps[i].word) => GroupValue(ps[i].word))
  }

  predicate AllOctets(ps: seq<Piece>) {
    forall i :: 0 <= i < |ps| ==> OctetOk(ps[i].word)
  }

  function Octets(ps: seq<Piece>): (r: seq<byte>)
    requires AllOctets(ps)
    ensures |r| == |ps|
  {
    seq(|ps|, i requires 0 <= i < |ps| && OctetOk(ps[i].word) => OctetValue(ps[i].word))
  }

  predicate Closes(p: Piece) {
    p.mark == ByColon || p.mark == ByGap
  }

  function HeadEnd(ps: seq<Piece>, from: nat): (n: nat)
    requires from <= |ps|
    ensures from <= n <= |ps| && (n < |ps| ==> !Closes(ps[n]))
    ensures forall i :: from <= i < n ==> Closes(ps[i])
    decreases |ps| - from
  {
    if from == |ps| || !Closes(ps[from]) then from else HeadEnd(ps, from + 1)
  }

  /** The pieces in front of the last group or the dotted tail. */
  function HeadLength(ps: seq<Piece>): (n: nat)
    ensures n <= |ps| && (n < |ps| ==> !Closes(ps[n]))
    ensures forall i :: 0 <= i < n ==> Closes(ps[i])
  {
    HeadEnd(ps, 0)
  }

  function Head(ps: seq<Piece>): seq<Piece> {
    ps[..HeadLength(ps)]
  }

  function Tail(ps: seq<Piece>): (tail: seq<Piece>)
    ensures Whole(ps) ==> tail != []
  {
    assert Whole(ps) ==> !Closes(ps[|ps| - 1]);
    ps[HeadLength(ps)..]
  }

  const LEADING_GAP := Piece("", ByGap)

  /** Every piece of the head is a group, but a "::" with nothing in front of it. */
  function Closed(head: seq<Piece>): (r: seq<Piece>)
    ensures |r| <= |head|
    ensures AllGroups(head) ==> AllGroups(r)
  {
    if head != [] && head[0] == LEADING_GAP then head[1..] else head
  }

  function GapFrom(head: seq<Piece>, from: nat): (k: nat)
    requires from <= |head|
    ensures from <= k <= |head| && (k < |head| ==> head[k].mark == ByGap)
    ensures forall i :: from <= i < k ==> head[i].mark != ByGap
    decreases |head| - from
  {
    if from == |head| || head[from].mark == ByGap then from else GapFrom(head, from + 1)
  }

  /** The first gap, or the end of the list. */
  function GapIndex(head: seq<Piece>): (k: nat)
    ensures k <= |head| && (k < |head| ==> head[k].mark == ByGap)
    ensures forall i :: 0 <= i < k ==> head[i].mark != ByGap
  {
    GapFrom(head, 0)
  }

  predicate OneGap(head: seq<Piece>) {
    forall i :: GapIndex(head) < i < |head| ==> head[i].mark != ByGap
  }

  /** How many groups stand before the gap. */
  function GroupsBefore(head: seq<Piece>): (n: int)
    ensures UNSET <= n <= |Closed(head)|
  {
    var k := GapIndex(head);
    if k == |head| then UNSET else |Closed(head[..k + 1])|
  }

  /** A text starts with a word, or with "::" and then a word or nothing. */
  predicate Starts(head: seq<Piece>, tail: seq<Piece>)
    requires tail != []
  {
    if head == [] then tail[0].word != ""
    else
      || head[0].word != ""
      || (head[0].mark == ByGap
          && if |head| > 1 then head[1].word != "" else tail[0].word != "" || tail[0].mark == AtEnd)
  }

  predicate HeadOk(head: seq<Piece>) {
    AllGroups(head) && OneGap(head) && |Closed(head)| <= 7
  }

  /** One last group, or the four octets of a dotted tail. */
  predicate TailOk(tail: seq<Piece>) {
    || (|tail| == 1 && GroupOk(tail[0].word))
    || (|tail| == 4 && AllOctets(tail) && forall i :: 0 <= i < 3 ==> tail[i].mark == ByDot)
  }

  predicate Legible(head: seq<Piece>, tail: seq<Piece>)
    requires tail != []
  {
    Starts(head, tail) && HeadOk(head) && TailOk(tail)
  }

  function TailGroups(groups: seq<word>, tail: seq<Piece>): (r: seq<word>)
    requires TailOk(tail)
    ensures |r| <= 3 && (groups != [] ==> |r| <= 2) && |r| >= 1
  {
    if |tail| == 4 then (if groups == [] then [0xffff] else []) + Quad(Octets(tail))
    else [GroupValue(tail[0].word)]
  }

  /** All groups the text writes, before they are spread over the address. */
  function Written(head: seq<Piece>, tail: seq<Piece>): (r: seq<word>)
    requires HeadOk(head) && TailOk(tail)
    ensures GroupsBefore(head) < |r| <= 9
  {
    var groups := Groups16(Closed(head));
    groups + TailGroups(groups, tail)
  }

  /** The address of a list of pieces that is cut into head and tail. */
  function Address(head: seq<Piece>, tail: seq<Piece>): Outcome
    requires tail != []
  {
    if !Legible(head, tail) then Rejected
    else if |Written(head, tail)| > 8 then Overrun
    else
      var before := GroupsBefore(head);
      Parsed(Bytes(Spread(Written(head, tail), if before == UNSET then 0 else before)))
  }

  function Reference(s: string): Outcome {
    var ps := Split(s);
    Address(Head(ps), Tail(ps))
  }

  // ----- the automaton on pieces -----

  function OnWord(st: State, w: string): State
    requires AllHex(w) && st.accHex < U32 && st.accDec < U32
  {
    if w == "" then st
    else st.(mode := Proc, accHex := Accumulate(U32, 16, st.accHex, w), accDec := Accumulate(U32, 10, st.accDec, w))
  }

  function OnMark(st: State, m: Mark): State {
    match m
    case ByColon => OnColon(st)
    case ByGap => OnGap(st)
    case ByDot => OnDot(st)
    case AtEnd => st
  }

  predicate Rested(st: State) {
    st.accHex == 0 == st.accDec
  }

  function OnPiece(st: State, p: Piece): State
    requires Rested(st)
  {
    if st.mode.Error? || !AllHex(p.word) then Fail(st) else OnMark(OnWord(st, p.word), p.mark)
  }

  /** A failed run is represented by one state, whatever it holds. */
  function Settle(st: State): State {
    if st.mode.Error? then Fail(INITIAL) else st
  }

  /** The state after a list of pieces that are all ended by a mark. */
  function After(ps: seq<Piece>): (st: State)
    requires forall i :: 0 <= i < |ps| ==> ps[i].mark != AtEnd
    ensures Rested(st)
  {
    if ps == [] then INITIAL else Settle(OnPiece(After(ps[..|ps| - 1]), ps[|ps| - 1]))
  }

  lemma AfterFirst(w: string)
    requires w != ""
    ensures AllHex(w) <==> IsHex(w[0]) && AllHex(w[1..])
    ensures Plain(w) <==> !IsMark(w[0]) && Plain(w[1..])
  {
    assert forall i :: 1 <= i < |w| ==> w[i] == w[1..][i - 1];
  }

  lemma {:induction false} WordRun(st: State, w: string, rest: string)
    requires Plain(w) && !st.mode.Error? && st.accHex < U32 && st.accDec < U32
    ensures if AllHex(w) then Run(st, w + rest) == Run(OnWord(st, w), rest) else Run(st, w + rest).mode.Error?
    decreases |w|
  {
    if w == "" {
      assert w + rest == rest;
    } else {
      AfterFirst(w);
      var s := w + rest;
      assert s[0] == w[0] && s[1..] == w[1..] + rest;
      assert Run(st, s) == Run(Step(st, s), s[1..]);
      if IsHex(w[0]) {
        var next := OnDigit(st, Digit(w[0]));
        WordRun(next, w[1..], rest);
        assert AllHex(w) ==> OnWord(next, w[1..]) == OnWord(st, w);
      }
    }
  }

  /** One piece of the text, with its mark. */
  lemma PieceRun(st: State, w: string, more: string)
    requires Rested(st) && !st.mode.Error? && Plain(w) && more != "" && IsMark(more[0])
    ensures var next := OnPiece(st, Piece(w, MarkOf(more)));
            if next.mode.Error? then Run(st, w + more).mode.Error?
            else Run(st, w + more) == Run(next, more[Width(more)..])
  {
    WordRun(st, w, more);
  }

  /** The state in which the run over a whole text ends. */
  function Final(ps: seq<Piece>): (st: State)
    requires ps != [] && forall i :: 0 <= i < |ps| - 1 ==> ps[i].mark != AtEnd
  {
    Settle(OnPiece(After(ps[..|ps| - 1]), ps[|ps| - 1]))
  }

  /** A text without a mark. */
  lemma LastWord(done: seq<Piece>, s: string)
    requires forall i :: 0 <= i < |done| ==> done[i].mark != AtEnd
    requires WordLength(s) == |s| && !After(done).mode.Error?
    ensures Settle(Run(After(done), s)) == Final(done + Split(s))
  {
    var ps := done + [Piece(s, AtEnd)];
    assert s[..|s|] == s && s + "" == s;
    WordRun(After(done), s, "");
    assert ps[..|done|] == done;
  }

  lemma OneMore(done: seq<Piece>, p: Piece, more: seq<Piece>)
    ensures done + [p] + more == done + ([p] + more)
    ensures (done + [p])[..|done|] == done
  {}

  /** How a text splits at its first mark. */
  lemma SplitWord(w: string, more: string)
    requires Plain(w) && more != "" && IsMark(more[0])
    ensures Split(w + more) == [Piece(w, MarkOf(more))] + Split(more[Width(more)..])
  {
    var s := w + more;
    assert forall i :: 0 <= i < |w| ==> s[i] == w[i];
    assert s[|w|] == more[0];
    assert WordLength(s) == |w|;
    assert s[..|w|] == w && s[|w|..] == more;
  }

  /** One piece, given where the rest ends. */
  lemma RunStep(st: State, w: string, more: string, rest: string, next: State, end: State)
    requires Rested(st) && !st.mode.Error? && Plain(w) && more != "" && IsMark(more[0]) && rest == more[Width(more)..]
    requires next == Settle(OnPiece(st, Piece(w, MarkOf(more))))
    requires end == if next.mode.Error? then Fail(INITIAL) else Settle(Run(next, rest))
    ensures Settle(Run(st, w + more)) == end
  {
    PieceRun(st, w, more);
  }

  lemma AfterOneMore(done: seq<Piece>, p: Piece)
    requires forall i :: 0 <= i < |done + [p]| ==> (done + [p])[i].mark != AtEnd
    ensures After(done + [p]) == Settle(OnPiece(After(done), p))
  {
    OneMore(done, p, []);
  }

  lemma {:induction false} RunPieces(done: seq<Piece>, s: string)
    requires forall i :: 0 <= i < |done| ==> done[i].mark != AtEnd
    ensures Settle(Run(After(done), s)) == Final(done + Split(s))
    decreases |s|, 1
  {
    var n := WordLength(s);
    if After(done).mode.Error? {
      ErrorStays(done, Split(s));
    } else if n == |s| {
      LastWord(done, s);
    } else {
      PiecesStep(done, s, n);
    }
  }

  lemma {:induction false} PiecesStep(done: seq<Piece>, s: string, n: nat)
    requires forall i :: 0 <= i < |done| ==> done[i].mark != AtEnd
    requires n == WordLength(s) < |s| && !After(done).mode.Error?
    ensures Settle(Run(After(done), s)) == Final(done + Split(s))
    decreases |s|, 0
  {
    var w, more := s[..n], s[n..];
    var p, rest := Piece(w, MarkOf(more)), more[Width(more)..];
    assert s == w + more;
    SplitWord(w, more);
    OneMore(done, p, Split(rest));
    AfterOneMore(done, p);
    var next, end := After(done + [p]), Final(done + [p] + Split(rest));
    if next.mode.Error? { ErrorStays(done + [p], Split(rest)); } else { RunPieces(done + [p], rest); }
    RunStep(After(done), w, more, rest, next, end);
  }

  lemma {:induction false} ErrorStays(done: seq<Piece>, more: seq<Piece>)
    requires forall i :: 0 <= i < |done| ==> done[i].mark != AtEnd
    requires more != [] && forall i :: 0 <= i < |more| - 1 ==> more[i].mark != AtEnd
    requires After(done).mode.Error?
    ensures Final(done + more) == Fail(INITIAL)
    decreases |more|
  {
    var n := |more| - 1;
    assert (done + more)[..|done| + n] == done + more[..n];
    if n > 0 {
      ErrorStays(done, more[..n]);
      assert done + more[..n] != [];
    } else {
      assert done + more[..n] == done;
    }
  }

  // ----- what the automaton holds after the head -----

  /** The start condition as far as a head alone decides it. */
  predicate HeadStarts(head: seq<Piece>) {
    || head == []
    || head[0].word != ""
    || (head[0].mark == ByGap && (|head| == 1 || head[1].word != ""))
  }

  /** No word has been seen yet. */
  predicate NoWord(head: seq<Piece>) {
    head == [] || head == [LEADING_GAP]
  }

  function HeadState(head: seq<Piece>): State
    requires AllGroups(head)
  {
    State(if NoWord(head) then Start else Proc, Groups16(Closed(head)), [], GroupsBefore(head), 0, 0)
  }

  predicate AllClose(head: seq<Piece>) {
    forall i :: 0 <= i < |head| ==> Closes(head[i])
  }

  lemma GapIndexAppend(init: seq<Piece>, p: Piece)
    ensures var k := GapIndex(init);
            GapIndex(init + [p]) == if k < |init| then k else if p.mark == ByGap then |init| else |init| + 1
  {
    var all := init + [p];
    assert forall i :: 0 <= i < |init| ==> all[i] == init[i];
    assert all[|init|] == p;
  }

  lemma ClosedAppend(init: seq<Piece>, p: Piece)
    ensures Closed(init + [p]) == if init == [] && p == LEADING_GAP then [] else Closed(init) + [p]
  {
    var all := init + [p];
    if init == [] {
      assert all == [p] && all[1..] == [];
    } else if init[0] == LEADING_GAP {
      assert all[1..] == init[1..] + [p];
    }
  }

  lemma GroupsBeforeAppend(init: seq<Piece>, p: Piece)
    requires p.mark == ByGap ==> GapIndex(init) == |init|
    ensures GroupsBefore(init + [p]) == if p.mark == ByGap then |Closed(init + [p])| else GroupsBefore(init)
    ensures OneGap(init + [p]) <==> OneGap(init)
  {
    var all := init + [p];
    var k := GapIndex(init);
    GapIndexAppend(init, p);
    if k < |init| {
      assert all[..k + 1] == init[..k + 1];
    } else if p.mark == ByGap {
      assert all[..|init| + 1] == all;
    }
    if OneGap(all) {
      forall i | k < i < |init| ensures init[i].mark != ByGap { assert all[i] == init[i]; }
    }
  }

  lemma WordValue(w: string)
    requires AllHex(w)
    ensures Accumulate(U32, 16, 0, w) == HexVal(w) % U32 && Accumulate(U32, 10, 0, w) == DecVal(w) % U32
  {
    AccumulateIsFoldMod(U32, 16, 0, w);
    AccumulateIsFoldMod(U32, 10, 0, w);
  }

  /** What is wrong with a head stays wrong when it grows. */
  lemma HeadGrows(init: seq<Piece>, p: Piece)
    requires HeadStarts(init + [p]) && HeadOk(init + [p])
    ensures HeadStarts(init) && HeadOk(init)
  {
    var all := init + [p];
    ClosedAppend(init, p);
    assert forall i :: 0 <= i < |init| ==> init[i] == all[i];
    GapIndexAppend(init, p);
    forall i | GapIndex(init) < i < |init| ensures init[i].mark != ByGap { assert all[i] == init[i]; }
  }

  /** A piece that is no group spoils the head and stops the automaton. */
  lemma BadWord(init: seq<Piece>, p: Piece)
    requires Closes(p) && HeadStarts(init) && HeadOk(init) && !GroupOk(p.word)
    ensures OnPiece(HeadState(init), p).mode.Error? && !HeadOk(init + [p])
  {
    assert (init + [p])[|init|] == p;
    if AllHex(p.word) { WordValue(p.word); }
  }

  lemma ColonPiece(init: seq<Piece>, p: Piece)
    requires p.mark == ByColon && HeadStarts(init) && HeadOk(init) && GroupOk(p.word)
    ensures var all := init + [p];
            Settle(OnPiece(HeadState(init), p)) == if HeadStarts(all) && HeadOk(all) then HeadState(all) else Fail(INITIAL)
  {
    WordValue(p.word);
    ClosedAppend(init, p);
    GroupsAppend(init, p);
    GroupsBeforeAppend(init, p);
    StartsAppend(init, p);
  }

  lemma StartsAppend(init: seq<Piece>, p: Piece)
    requires HeadStarts(init)
    ensures HeadStarts(init + [p]) <==> (p.mark == ByGap && init == []) || !NoWord(init) || p.word != ""
    ensures p.mark != ByGap ==> !NoWord(init + [p])
  {}

  lemma SecondGap(init: seq<Piece>, p: Piece)
    requires p.mark == ByGap && GapIndex(init) < |init|
    ensures !OneGap(init + [p])
  {
    GapIndexAppend(init, p);
    assert (init + [p])[|init|].mark == ByGap;
  }

  lemma GapPiece(init: seq<Piece>, p: Piece)
    requires p.mark == ByGap && HeadStarts(init) && HeadOk(init) && GroupOk(p.word)
    ensures var all := init + [p];
            Settle(OnPiece(HeadState(init), p)) == if HeadStarts(all) && HeadOk(all) then HeadState(all) else Fail(INITIAL)
  {
    WordValue(p.word);
    if GapIndex(init) < |init| {
      SecondGap(init, p);
      assert GroupsBefore(init) != UNSET;
    } else {
      ClosedAppend(init, p);
      GroupsAppend(init, p);
      GroupsBeforeAppend(init, p);
      NoGapNoLeading(init, p);
    }
  }

  lemma NoGapNoLeading(init: seq<Piece>, p: Piece)
    requires GapIndex(init) == |init| && p.mark == ByGap && HeadStarts(init)
    ensures NoWord(init) <==> init == []
    ensures HeadStarts(init + [p]) && (NoWord(init + [p]) <==> init == [] && p.word == "")
  {
    if init != [] { assert init[0].mark != ByGap && (init + [p])[0] == init[0]; }
  }

  /** A group that is closed by a colon or by the gap. */
  lemma ClosingPiece(init: seq<Piece>, p: Piece)
    requires AllClose(init) && Closes(p) && HeadStarts(init) && HeadOk(init)
    ensures var all := init + [p];
            Settle(OnPiece(HeadState(init), p)) == if HeadStarts(all) && HeadOk(all) then HeadState(all) else Fail(INITIAL)
  {
    if !GroupOk(p.word) {
      BadWord(init, p);
    } else if p.mark == ByColon {
      ColonPiece(init, p);
    } else {
      GapPiece(init, p);
    }
  }

  lemma GroupsAppend(init: seq<Piece>, p: Piece)
    requires AllGroups(init) && GroupOk(p.word)
    ensures AllGroups(init + [p])
    ensures Groups16(Closed(init + [p])) ==
            Groups16(Closed(init)) + if init == [] && p == LEADING_GAP then [] else [GroupValue(p.word)]
  {
    ClosedAppend(init, p);
  }

  lemma {:induction false} AfterHead(head: seq<Piece>)
    requires AllClose(head)
    ensures After(head) == if HeadStarts(head) && HeadOk(head) then HeadState(head) else Fail(INITIAL)
    decreases |head|
  {
    if head != [] {
      var init, p := head[..|head| - 1], head[|head| - 1];
      assert head == init + [p];
      AfterHead(init);
      if HeadStarts(init) && HeadOk(init) {
        ClosingPiece(init, p);
      } else if HeadStarts(head) && HeadOk(head) {
        HeadGrows(init, p);
      }
    }
  }

  // ----- the dotted tail -----

  /** After a head and `dots` octets that are closed by dots. */
  function DotState(head: seq<Piece>, dots: seq<Piece>): State
    requires AllGroups(head) && AllOctets(dots)
  {
    if dots == [] then HeadState(head)
    else HeadState(head).(mode := Proc, dec := Octets(dots))
  }

  predicate DotsOk(head: seq<Piece>, dots: seq<Piece>) {
    AllOctets(dots) && |dots| <= 3 && (dots != [] && NoWord(head) ==> dots[0].word != "")
  }

  predicate AllDots(dots: seq<Piece>) {
    forall i :: 0 <= i < |dots| ==> dots[i].mark == ByDot
  }

  lemma DotPiece(head: seq<Piece>, init: seq<Piece>, p: Piece)
    requires AllGroups(head) && DotsOk(head, init) && p.mark == ByDot
    ensures Settle(OnPiece(DotState(head, init), p)) ==
            if DotsOk(head, init + [p]) then DotState(head, init + [p]) else Fail(INITIAL)
  {
    var all := init + [p];
    assert all[|init|] == p;
    if AllHex(p.word) { WordValue(p.word); }
    if OctetOk(p.word) { assert AllOctets(all) && Octets(all) == Octets(init) + [OctetValue(p.word)]; }
  }

  lemma {:induction false} AfterDots(head: seq<Piece>, dots: seq<Piece>)
    requires AllClose(head) && AllDots(dots)
    ensures After(head + dots) == if HeadStarts(head) && HeadOk(head) && DotsOk(head, dots) then DotState(head, dots)
                                  else Fail(INITIAL)
    decreases |dots|
  {
    if dots == [] {
      assert head + dots == head;
      AfterHead(head);
    } else {
      var init, p := dots[..|dots| - 1], dots[|dots| - 1];
      assert dots == init + [p];
      assert (head + dots)[..|head + dots| - 1] == head + init;
      AfterDots(head, init);
      if HeadStarts(head) && HeadOk(head) && DotsOk(head, init) { DotPiece(head, init, p); }
    }
  }

  // ----- the end of the text -----

  function DotEnd(tail: seq<Piece>, from: nat): (d: nat)
    requires from <= |tail|
    ensures from <= d <= |tail| && (d < |tail| ==> tail[d].mark != ByDot)
    ensures forall i :: from <= i < d ==> tail[i].mark == ByDot
    decreases |tail| - from
  {
    if from == |tail| || tail[from].mark != ByDot then from else DotEnd(tail, from + 1)
  }

  lemma StartsParts(head: seq<Piece>, tail: seq<Piece>)
    requires tail != []
    ensures Starts(head, tail) <==> HeadStarts(head)
                                    && (NoWord(head) ==> tail[0].word != "" || (head != [] && tail[0].mark == AtEnd))
  {}

  lemma Nothing(st: State)
    requires st.mode.Error? && Bounded(st)
    ensures Finish(st) == Rejected
  {}

  lemma PlainFinish(head: seq<Piece>, end: Piece)
    requires HeadStarts(head) && HeadOk(head) && AllHex(end.word) && end.mark == AtEnd
    ensures var st := OnWord(HeadState(head), end.word); Bounded(st) && Finish(st) == Address(head, [end])
  {
    WordValue(end.word);
    StartsParts(head, [end]);
    var st := OnWord(HeadState(head), end.word);
    assert Refused(st) <==> !Legible(head, [end]);
    if Legible(head, [end]) { assert LastGroups(st) == TailGroups(st.hex, [end]); }
  }

  /** The text ends with a group, or with the gap. */
  lemma PlainEnd(head: seq<Piece>, end: Piece)
    requires AllClose(head) && end.mark == AtEnd
    ensures Bounded(Final(head + [end])) && Finish(Final(head + [end])) == Address(head, [end])
  {
    assert (head + [end])[..|head|] == head;
    AfterHead(head);
    if HeadStarts(head) && HeadOk(head) && AllHex(end.word) {
      PlainFinish(head, end);
    } else {
      StartsParts(head, [end]);
      Nothing(Final(head + [end]));
    }
  }

  lemma DottedTail(dots: seq<Piece>, end: Piece)
    requires AllDots(dots) && dots != []
    ensures TailOk(dots + [end]) <==> |dots| == 3 && AllOctets(dots) && OctetOk(end.word)
    ensures TailOk(dots + [end]) ==> Octets(dots + [end]) == Octets(dots) + [OctetValue(end.word)]
  {
    var tail := dots + [end];
    assert tail[|dots|] == end;
    if TailOk(tail) { assert forall i :: 0 <= i < |dots| ==> dots[i] == tail[i]; }
  }

  lemma DottedFinish(head: seq<Piece>, dots: seq<Piece>, end: Piece)
    requires dots != [] && AllDots(dots) && AllHex(end.word) && end.mark == AtEnd
    requires HeadStarts(head) && HeadOk(head) && DotsOk(head, dots)
    ensures var st := OnWord(DotState(head, dots), end.word); Bounded(st) && Finish(st) == Address(head, dots + [end])
  {
    WordValue(end.word);
    DottedTail(dots, end);
    StartsParts(head, dots + [end]);
    var st := OnWord(DotState(head, dots), end.word);
    assert Refused(st) <==> !Legible(head, dots + [end]);
    if !Refused(st) { assert LastGroups(st) == TailGroups(st.hex, dots + [end]); }
  }

  /** The text ends with dotted octets. */
  lemma DottedEnd(head: seq<Piece>, dots: seq<Piece>, end: Piece)
    requires AllClose(head) && AllDots(dots) && dots != [] && end.mark == AtEnd
    ensures var ps := head + dots + [end]; Bounded(Final(ps)) && Finish(Final(ps)) == Address(head, dots + [end])
  {
    var ps := head + dots + [end];
    assert ps[..|ps| - 1] == head + dots;
    AfterDots(head, dots);
    if HeadStarts(head) && HeadOk(head) && DotsOk(head, dots) && AllHex(end.word) {
      DottedFinish(head, dots, end);
    } else {
      DottedTail(dots, end);
      StartsParts(head, dots + [end]);
      Nothing(Final(ps));
    }
  }

  /** A mark other than a dot stops the automaton after a dot. */
  lemma ColonStops(head: seq<Piece>, dots: seq<Piece>, p: Piece)
    requires AllClose(head) && AllDots(dots) && dots != [] && Closes(p)
    ensures After(head + dots + [p]) == Fail(INITIAL)
  {
    var done := head + dots;
    AfterDots(head, dots);
    OneMore(done, p, []);
    var st := After(done);
    assert st.mode.Error? || st.dec != [];
    assert OnPiece(st, p).mode.Error?;
  }

  /** A colon after a dot. */
  lemma ColonAfterDot(head: seq<Piece>, dots: seq<Piece>, p: Piece, more: seq<Piece>)
    requires AllClose(head) && AllDots(dots) && dots != [] && Closes(p) && Whole(more)
    ensures Final(head + dots + [p] + more) == Fail(INITIAL) && !TailOk(dots + [p] + more)
  {
    var tail := dots + [p] + more;
    ColonStops(head, dots, p);
    ErrorStays(head + dots + [p], more);
    assert tail[|dots|] == p && tail[|tail| - 1] == more[|more| - 1];
  }

  /** How a list of pieces is cut. */
  lemma Parts(ps: seq<Piece>) returns (head: seq<Piece>, dots: seq<Piece>, more: seq<Piece>)
    requires Whole(ps)
    ensures head == Head(ps) && Tail(ps) == dots + more && ps == head + dots + more
    ensures AllClose(head) && AllDots(dots) && Whole(more)
    ensures if |more| == 1 then more[0].mark == AtEnd else dots != [] && Closes(more[0])
  {
    head := Head(ps);
    var n := HeadLength(ps);
    var d := DotEnd(ps, n);
    assert !Closes(ps[|ps| - 1]);
    dots, more := ps[n..d], ps[d..];
    WholeRest(ps, d);
    Cuts(ps, n, d);
  }

  lemma Cuts(ps: seq<Piece>, n: nat, d: nat)
    requires n <= d <= |ps|
    ensures ps[n..] == ps[n..d] + ps[d..] && ps == ps[..n] + ps[n..d] + ps[d..]
  {}

  lemma WholeRest(ps: seq<Piece>, d: nat)
    requires Whole(ps) && d < |ps|
    ensures Whole(ps[d..]) && (|ps[d..]| == 1 ==> ps[d].mark == AtEnd)
  {
    assert forall i :: 0 <= i < |ps| - d ==> ps[d..][i] == ps[d + i];
  }

  lemma PiecesMeet(head: seq<Piece>, dots: seq<Piece>, more: seq<Piece>)
    requires AllClose(head) && AllDots(dots) && Whole(more)
    requires if |more| == 1 then more[0].mark == AtEnd else dots != [] && Closes(more[0])
    ensures var ps := head + dots + more; Bounded(Final(ps)) && Finish(Final(ps)) == Address(head, dots + more)
  {
    if |more| == 1 {
      assert more == [more[0]];
      if dots == [] {
        assert head + dots == head && dots + more == more;
        PlainEnd(head, more[0]);
      } else {
        DottedEnd(head, dots, more[0]);
      }
    } else {
      assert more == [more[0]] + more[1..];
      assert head + dots + more == head + dots + [more[0]] + more[1..];
      assert dots + more == dots + [more[0]] + more[1..];
      ColonAfterDot(head, dots, more[0], more[1..]);
      Nothing(Final(head + dots + more));
    }
  }

  /** On every text the parser agrees with the reference definition. */
  lemma ParserMeetsReference(s: string)
    ensures Parse(s) == Reference(s)
  {
    RunBounded(INITIAL, s);
    assert [] + Split(s) == Split(s);
    RunPieces([], s);
    var head, dots, more := Parts(Split(s));
    PiecesMeet(head, dots, more);
    if Run(INITIAL, s).mode.Error? { Nothing(Run(INITIAL, s)); }
  }

  /**
    The parser refuses exactly the texts that are not legible, and writes outside its group array on
    exactly the legible ones that close seven groups before a dotted tail.
   */
  lemma OverrunExactly(s: string)
    ensures var head, tail := Head(Split(s)), Tail(Split(s));
            && (Parse(s) == Rejected <==> !Legible(head, tail))
            && (Parse(s) == Overrun <==> Legible(head, tail) && |Closed(head)| == 7 && |tail| == 4)
  {
    ParserMeetsReference(s);
  }
}
