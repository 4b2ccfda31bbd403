/** IPv6 socket addresses: "[ip]:port" text. */
module Addr6 {
  import opened Text
  import Ip6Parser
  import Ip6Printer
  import Ip6RoundTrip

  /** `Close` follows the bracket, `Port` the colon after it. */
  datatype Mode = Open | Inside | Close | Port | Error | End
  datatype State = State(mode: Mode, ipLength: nat, accum: nat)

  const INITIAL := State(Open, 0, 0)

  /** The fields after a parse and the success flag; `Undefined` comes from the address parser. */
  datatype Outcome6 = Addr(ip: seq<byte>, port: nat, ok: bool) | Undefined

  const EMPTY := Addr(Ip6Parser.UNSPECIFIED, 0, false)

  /** The length of the address text when the bracket closes at position `i`. */
  function LengthAt(i: nat): nat {
    if i >= 1 then i - 1 else 0
  }

  /** One character at position `i`. */
  function Step(st: State, c: char, i: nat): State {
    match st.mode
    case Open => if c == '[' then State(Inside, st.ipLength, st.accum) else State(Error, st.ipLength, st.accum)
    case Inside =>
      if c == ']' then State(if LengthAt(i) >= 2 then Close else Error, LengthAt(i), st.accum)
      else if IsAddressChar(c) then st
      else State(Error, st.ipLength, st.accum)
    case Close => if c == ':' then State(Port, st.ipLength, st.accum) else State(Error, st.ipLength, st.accum)
    case Port =>
      if IsDec(c) then State(Port, st.ipLength, (st.accum * 10 + Digit(c)) % U64)
      else if st.accum != 0 then State(End, st.ipLength, st.accum)
      else State(Error, st.ipLength, st.accum)
    case Error => st
    case End => st
  }

  function Run(st: State, s: string, i: nat): State
    requires i <= |s|
    decreases |s| - i
  {
    if i == |s| || st.mode.Error? then st else Run(Step(st, s[i], i), s, i + 1)
  }

  /** The text handed to the address parser. */
  function Inner(st: State, s: string): string {
    if 1 <= |s| && 1 + st.ipLength <= |s| then s[1..1 + st.ipLength] else ""
  }

  function Finish(st: State, s: string): Outcome6 {
    var r := Ip6Parser.Parse(Inner(st, s));
    if st.mode.Error? then EMPTY
    else if r.Overrun? then Undefined
    else if st.accum > 0xffff then EMPTY
    else if r.Parsed? then Addr(r.bytes, st.accum, true)
    else Addr(Ip6Parser.UNSPECIFIED, st.accum, false)
  }

  function Parse(s: string): Outcome6 {
    Finish(Run(INITIAL, s, 0), s)
  }

  function ToText(b: seq<byte>, port: nat, reduction: bool, embedded: bool): string
    requires |b| == 16
  {
    "[" + Ip6RoundTrip.ToText(b, reduction, embedded) + "]:" + Numeral(10, port)
  }

  // ----- how the automaton runs -----

  lemma {:induction false} InsideRun(st: State, s: string, i: nat, c: nat)
    requires st.mode.Inside? && i <= c <= |s|
    requires forall j :: i <= j < c ==> IsAddressChar(s[j])
    ensures Run(st, s, i) == Run(st, s, c)
    decreases c - i
  {
    if i < c {
      assert Step(st, s[i], i) == st;
      InsideRun(st, s, i + 1, c);
    }
  }

  lemma {:induction false} PortRun(st: State, s: string, i: nat)
    requires st.mode.Port? && i <= |s| && st.accum < U64
    ensures var t := s[i..];
            var n := LeadingDigits(t);
            var a := Accumulate(U64, 10, st.accum, t[..n]);
            Run(st, s, i) == (if n == |t| then st.(accum := a)
                              else st.(mode := if a != 0 then End else Error, accum := a))
    decreases |s| - i
  {
    var t := s[i..];
    if i < |s| {
      var next := Step(st, s[i], i);
      if IsDec(s[i]) {
        PortRun(next, s, i + 1);
        assert t[1..] == s[i + 1..];
        assert t[..LeadingDigits(t)][1..] == t[1..][..LeadingDigits(t[1..])];
      } else {
        Final(next, s, i + 1);
      }
    }
  }

  lemma {:induction false} Final(st: State, s: string, i: nat)
    requires i <= |s| && (st.mode.End? || st.mode.Error?)
    ensures Run(st, s, i) == st
    decreases |s| - i
  {
    if i < |s| && st.mode.End? { Final(st, s, i + 1); }
  }

  /** What may follow the closing bracket: nothing, or a colon and a port, which may be missing. */
  predicate TailOk(tail: string) {
    tail == "" || (PortViable(tail) && PortOf(tail[1..]) <= 0xffff)
  }

  /** A colon and digits, and only after a port other than 0 anything else. */
  predicate PortViable(tail: string) {
    || tail == ""
    || (tail[0] == ':' && (LeadingDigits(tail[1..]) < |tail| - 1 ==> PortOf(tail[1..]) != 0))
  }

  function TailPort(tail: string): (p: nat) {
    if tail == "" then 0 else PortOf(tail[1..])
  }

  /** How many characters follow the opening bracket before the first closing one. */
  function Closing(s: string): (c: nat)
    requires s != ""
    ensures c <= |s| - 1
  {
    IndexOf(s[1..], ']')
  }

  /** A bracketed address of at least two characters and a tail. */
  predicate Accepts(s: string) {
    && s != "" && s[0] == '['
    && 2 <= Closing(s) < |s| - 1
    && Ip6Parser.Parse(s[1..1 + Closing(s)]).Parsed?
    && TailOk(s[Closing(s) + 2..])
  }

  lemma {:induction false} ParsedAlphabet(st: Ip6Parser.State, s: string)
    requires !Ip6Parser.Run(st, s).mode.Error?
    ensures forall i :: 0 <= i < |s| ==> IsAddressChar(s[i])
    decreases |s|
  {
    if s != "" {
      var w := Ip6Parser.Width(s);
      ParsedAlphabet(Ip6Parser.Step(st, s), s[w..]);
      assert forall i :: w <= i < |s| ==> s[i] == s[w..][i - w];
      assert IsAddressChar(s[0]) && (w == 2 ==> IsAddressChar(s[1]));
    }
  }

  /** The empty text is not an address. */
  lemma NothingInside()
    ensures Ip6Parser.Parse("") == Rejected
  {}

  /** A bracket closed at position `c + 1` after inner characters only. */
  lemma ClosedRun(s: string, c: nat)
    requires s != "" && s[0] == '[' && c == Closing(s) && c < |s| - 1
    requires forall i :: 1 <= i <= c ==> IsAddressChar(s[i])
    ensures Run(INITIAL, s, 0) == Run(State(if c >= 2 then Close else Error, c, 0), s, c + 2)
  {
    var inside := State(Inside, 0, 0);
    assert Run(INITIAL, s, 0) == Run(inside, s, 1);
    InsideRun(inside, s, 1, c + 1);
    assert s[c + 1] == s[1..][c] == ']';
  }

  lemma TailRun(s: string, c: nat)
    requires 2 <= c && c + 2 <= |s|
    ensures var st := Run(State(Close, c, 0), s, c + 2);
            var tail := s[c + 2..];
            && st.ipLength == c
            && (PortViable(tail) <==> !st.mode.Error?)
            && (TailOk(tail) <==> !st.mode.Error? && st.accum <= 0xffff)
            && (TailOk(tail) ==> st.accum == TailPort(tail))
  {
    var tail := s[c + 2..];
    var st := State(Close, c, 0);
    if tail != "" {
      var next := Step(st, s[c + 2], c + 2);
      if tail[0] == ':' {
        assert s[c + 3..] == tail[1..];
        PortRun(next, s, c + 3);
      } else {
        Final(next, s, c + 3);
      }
    }
  }

  lemma {:induction false} InsideStops(st: State, s: string, i: nat, f: nat)
    requires st.mode.Inside? && i <= f < |s| && !IsAddressChar(s[f]) && s[f] != ']'
    requires forall j :: i <= j < f ==> IsAddressChar(s[j])
    ensures Run(st, s, i).mode.Error?
  {
    InsideRun(st, s, i, f);
  }

  /** The parser succeeds on exactly the texts described, and then reads both parts. */
  lemma AcceptsExactly(s: string)
    ensures (Parse(s).Addr? && Parse(s).ok) <==> Accepts(s)
    ensures Accepts(s) ==>
              var c := Closing(s);
              Parse(s) == Addr(Ip6Parser.Parse(s[1..1 + c]).bytes, TailPort(s[c + 2..]), true)
  {
    if s == "" {
      NothingInside();
    } else if s[0] != '[' {
      Final(Step(INITIAL, s[0], 0), s, 1);
    } else {
      var c := Closing(s);
      var f := FirstForeign(IsAddressChar, s, 1, c + 1);
      if f < c + 1 {
        ForeignInside(s, f);
      } else if c == |s| - 1 {
        InsideRun(State(Inside, 0, 0), s, 1, |s|);
        NothingInside();
        assert s[1..1] == "";
      } else {
        ClosedAccepts(s);
      }
    }
  }

  lemma ClosedAccepts(s: string)
    requires s != "" && s[0] == '[' && Closing(s) < |s| - 1
    requires forall j :: 1 <= j <= Closing(s) ==> IsAddressChar(s[j])
    ensures (Parse(s).Addr? && Parse(s).ok) <==> Accepts(s)
    ensures Accepts(s) ==>
              Parse(s) == Addr(Ip6Parser.Parse(s[1..1 + Closing(s)]).bytes, TailPort(s[Closing(s) + 2..]), true)
  {
    var c := Closing(s);
    ClosedRun(s, c);
    if c >= 2 { TailRun(s, c); } else { Final(State(Error, c, 0), s, c + 2); }
  }

  /** A character that no address contains, before the first closing bracket. */
  lemma ForeignInside(s: string, f: nat)
    requires s != "" && s[0] == '[' && 1 <= f < Closing(s) + 1 && !IsAddressChar(s[f])
    requires forall j :: 1 <= j < f ==> IsAddressChar(s[j])
    ensures Run(INITIAL, s, 0).mode.Error? && !Accepts(s)
  {
    var c := Closing(s);
    var inside := State(Inside, 0, 0);
    assert Run(INITIAL, s, 0) == Run(inside, s, 1);
    NotInHead(s[1..], ']', f - 1);
    InsideStops(inside, s, 1, f);
    assert s[f] == s[1..1 + c][f - 1];
    if Ip6Parser.Parse(s[1..1 + c]).Parsed? { ParsedAlphabet(Ip6Parser.INITIAL, s[1..1 + c]); }
  }

  lemma NotInHead(s: string, c: char, i: nat)
    requires i < IndexOf(s, c)
    ensures s[i] != c
  {
    assert s[..IndexOf(s, c)][i] in s[..IndexOf(s, c)];
  }

  /** A text of the printed shape around an accepted address. */
  lemma Bracketed(t: string, w: string)
    requires Ip6Parser.Parse(t).Parsed? && w != "" && AllDec(w) && DecVal(w) <= 0xffff
    ensures var s := "[" + t + "]:" + w;
            Accepts(s) <==> |t| >= 2
    ensures var s := "[" + t + "]:" + w;
            |t| >= 2 ==> Parse(s) == Addr(Ip6Parser.Parse(t).bytes, DecVal(w), true)
  {
    ParsedAlphabet(Ip6Parser.INITIAL, t);
    assert ']' !in t;
    BracketedParts(t, w);
    PortOfDigits(w);
    InBrackets("[" + t + "]:" + w, t, ":" + w);
  }

  lemma InBrackets(s: string, t: string, tail: string)
    requires s != "" && s[0] == '[' && Closing(s) == |t| < |s| - 1 && s[1..1 + |t|] == t && s[|t| + 2..] == tail
    requires Ip6Parser.Parse(t).Parsed? && TailOk(tail)
    ensures Accepts(s) <==> |t| >= 2
    ensures |t| >= 2 ==> Parse(s) == Addr(Ip6Parser.Parse(t).bytes, TailPort(tail), true)
  {
    AcceptsExactly(s);
  }

  lemma BracketedParts(t: string, w: string)
    requires ']' !in t
    ensures var s := "[" + t + "]:" + w;
            && s[0] == '[' && |s| == |t| + |w| + 3 && Closing(s) == |t| && s[1..1 + |t|] == t
            && s[|t| + 2..] == ":" + w && (":" + w)[1..] == w
  {
    var s := "[" + t + "]:" + w;
    assert s[1..] == t + ("]:" + w);
    IndexOfConcat(t, ']', "]:" + w);
  }

  /**
    The header promises every format of the address parser inside the brackets. When the parser sees
    the whole text that holds exactly for the texts of two characters or more: a lone digit is an
    address but "[1]:80" is refused.
   */
  lemma EveryFormat(t: string, w: string)
    requires Ip6Parser.Parse(t).Parsed? && w != "" && AllDec(w) && DecVal(w) <= 0xffff
    ensures var r := Parse("[" + t + "]:" + w);
            (r.Addr? && r.ok) <==> |t| >= 2
  {
    Bracketed(t, w);
    AcceptsExactly("[" + t + "]:" + w);
  }

  /** The printed text: in brackets the text of the address for the same flags, then the port in base 10. */
  lemma Printed(b: seq<byte>, port: nat, reduction: bool, embedded: bool, t: string, w: string)
    requires |b| == 16 && ']' !in t && ToText(b, port, reduction, embedded) == "[" + t + "]:" + w
    ensures t == Ip6RoundTrip.ToText(b, reduction, embedded) && w == Numeral(10, port)
  {
    var inner := Ip6RoundTrip.ToText(b, reduction, embedded);
    Ip6RoundTrip.TextFits(b, reduction, embedded, ']');
    BracketedParts(inner, Numeral(10, port));
    BracketedParts(t, w);
  }

  /**
    Printing and parsing: address and port come back for every port, zero included, and for all
    flags except in the ambiguous case of the address text. The text fits 53 characters.
   */
  lemma RoundTrip(b: seq<byte>, port: nat, reduction: bool, embedded: bool)
    requires |b| == 16 && port <= 0xffff
    ensures var g := Ip6Parser.Groups(b);
            Parse(ToText(b, port, reduction, embedded)) ==
            Addr(if Ip6RoundTrip.Ambiguous(g, reduction, embedded) then Ip6Parser.Bytes(Ip6RoundTrip.Mapped(g)) else b, port, true)
    ensures |ToText(b, port, reduction, embedded)| <= 53 && NUL !in ToText(b, port, reduction, embedded)
  {
    var t, w := Ip6RoundTrip.ToText(b, reduction, embedded), Numeral(10, port);
    Ip6RoundTrip.RoundTrip(b, reduction, embedded);
    TextFits(b, port, reduction, embedded);
    NumeralValue(10, port);
    Bracketed(t, w);
  }

  lemma TextFits(b: seq<byte>, port: nat, reduction: bool, embedded: bool)
    requires |b| == 16 && port <= 0xffff
    ensures |ToText(b, port, reduction, embedded)| <= 53 && NUL !in ToText(b, port, reduction, embedded)
    ensures |Ip6RoundTrip.ToText(b, reduction, embedded)| >= 2
  {
    var t, w := Ip6RoundTrip.ToText(b, reduction, embedded), Numeral(10, port);
    Ip6RoundTrip.TextFits(b, reduction, embedded, NUL);
    NumeralLengths(port);
    assert NUL !in w;
  }

  // ----- the fields, in characters and numbers -----

  lemma AddressChars(c: char)
    ensures IsAddressChar(c) <==> c in "0123456789abcdefABCDEF:."
  {
    DigitsAre(c);
    assert "0123456789abcdefABCDEF:." == "0123456789abcdefABCDEF" + ":.";
  }

  lemma Foreign(t: string)
    ensures (exists i :: 0 <= i < |t| && !IsAddressChar(t[i]))
       <==> exists i :: 0 <= i < |t| && t[i] !in "0123456789abcdefABCDEF:."
  {
    forall i | 0 <= i < |t| ensures IsAddressChar(t[i]) <==> t[i] in "0123456789abcdefABCDEF:." { AddressChars(t[i]); }
  }

  /** Texts without a bracketed part reset everything. */
  lemma FieldsEmpty(s: string)
    requires s == "" || s[0] != '[' || ']' !in s
    ensures Parse(s) == Addr([0, 0, 0, 0, 0, 0, 0, 0, 0, 0, 0, 0, 0, 0, 0, 0], 0, false)
  {
    NothingInside();
    if s == "" {
    } else if s[0] != '[' {
      Final(Step(INITIAL, s[0], 0), s, 1);
    } else {
      assert s[1..1] == "";
      assert forall i :: 1 <= i < |s| ==> s[1..][i - 1] == s[i] && s[i] in s;
      var inside := State(Inside, 0, 0);
      var f := FirstForeign(IsAddressChar, s, 1, |s|);
      assert Run(INITIAL, s, 0) == Run(inside, s, 1);
      InsideRun(inside, s, 1, f);
    }
  }

  /** What the scan makes of a bracketed text. */
  lemma ScanFields(s: string, t: string, tail: string)
    requires s == "[" + t + "]" + tail && ']' !in t
    ensures var st := Run(INITIAL, s, 0);
            && (st.mode.Error? <==> |t| < 2 || (exists i :: 0 <= i < |t| && !IsAddressChar(t[i])) || !PortViable(tail))
            && (!st.mode.Error? ==> Inner(st, s) == t && (TailOk(tail) <==> st.accum <= 0xffff))
            && (!st.mode.Error? && TailOk(tail) ==> st.accum == TailPort(tail))
  {
    var c := |t|;
    BracketAt(s, t, tail);
    assert forall i :: 1 <= i <= c ==> s[i] == t[i - 1];
    var f := FirstForeign(IsAddressChar, s, 1, c + 1);
    if f < c + 1 {
      assert !IsAddressChar(t[f - 1]);
      ForeignInside(s, f);
    } else {
      assert forall i :: 0 <= i < |t| ==> t[i] == s[i + 1];
      ClosedRun(s, c);
      if c >= 2 { TailRun(s, c); } else { Final(State(Error, c, 0), s, c + 2); }
    }
  }

  lemma BracketAt(s: string, t: string, tail: string)
    requires s == "[" + t + "]" + tail && ']' !in t
    ensures s[0] == '[' && Closing(s) == |t| < |s| - 1 && s[1..1 + |t|] == t && s[|t| + 2..] == tail
  {
    assert s[1..] == t + ("]" + tail);
    IndexOfConcat(t, ']', "]" + tail);
  }

  lemma TailIs(tail: string, w: string, junk: string)
    requires tail == ":" + (w + junk) && AllDec(w) && (junk == "" || !IsDec(junk[0]))
    ensures TailPort(tail) == DecVal(w) % U64 && (PortViable(tail) <==> junk == "" || TailPort(tail) != 0)
  {
    assert tail[1..] == w + junk;
    LeadingDigitsConcat(w, junk);
    assert (w + junk)[..|w|] == w;
  }

  /**
    The fields after a bracketed text. The brackets have to hold two characters or more of the address
    alphabet; nothing may follow them, or a colon and a port, and something else only after a port that
    is not 0. The port is what the digits write, modulo 2^64, and 0 when there are none. When that fails
    or the port is above 65535 everything is reset; otherwise the port is kept even when the address is
    refused.
   */
  lemma FieldsExactly(s: string, t: string, tail: string, w: string, junk: string)
    requires s == "[" + t + "]" + tail && ']' !in t
    requires if tail != "" && tail[0] == ':' then tail == ":" + (w + junk) else w == "" && junk == tail
    requires (forall k :: 0 <= k < |w| ==> '0' <= w[k] <= '9') && (junk != "" ==> !('0' <= junk[0] <= '9'))
    ensures var zero, port, ip := [0, 0, 0, 0, 0, 0, 0, 0, 0, 0, 0, 0, 0, 0, 0, 0], DecVal(w) % 0x1_0000_0000_0000_0000, Ip6Parser.Parse(t);
            Parse(s) ==
            if || |t| < 2 || (exists i :: 0 <= i < |t| && t[i] !in "0123456789abcdefABCDEF:.")
               || (junk != "" && (tail[0] != ':' || port == 0)) then Addr(zero, 0, false)
            else if ip.Overrun? then Undefined
            else if port > 65535 then Addr(zero, 0, false)
            else if ip.Parsed? then Addr(ip.bytes, port, true)
            else Addr(zero, port, false)
  {
    ScanFields(s, t, tail);
    Foreign(t);
    if tail != "" && tail[0] == ':' { TailIs(tail, w, junk); }
  }

  // ----- how far the scan reads -----

  /** The position at which the scan fails, or the end of the text. */
  function FailAt(st: State, s: string, i: nat): (k: nat)
    requires i <= |s|
    ensures i <= k <= |s|
    decreases |s| - i
  {
    if i == |s| || Step(st, s[i], i).mode.Error? then i else FailAt(Step(st, s[i], i), s, i + 1)
  }

  /** A text in which the scan does not fail, complete or not. */
  predicate Viable(s: string) {
    || s == ""
    || (&& s[0] == '['
        && (forall i :: 1 <= i <= Closing(s) ==> IsAddressChar(s[i]))
        && (Closing(s) == |s| - 1 || (Closing(s) >= 2 && PortViable(s[Closing(s) + 2..]))))
  }

  lemma ViableExactly(s: string)
    ensures !Run(INITIAL, s, 0).mode.Error? <==> Viable(s)
  {
    if s == "" {
    } else if s[0] != '[' {
      Final(Step(INITIAL, s[0], 0), s, 1);
    } else {
      var c := Closing(s);
      var f := FirstForeign(IsAddressChar, s, 1, c + 1);
      if f < c + 1 {
        ForeignInside(s, f);
      } else if c == |s| - 1 {
        assert Run(INITIAL, s, 0) == Run(State(Inside, 0, 0), s, 1);
        InsideRun(State(Inside, 0, 0), s, 1, |s|);
      } else {
        ClosedRun(s, c);
        if c >= 2 { TailRun(s, c); } else { Final(State(Error, c, 0), s, c + 2); }
      }
    }
  }

  lemma {:induction false} FailPrefix(st: State, s: string, i: nat, k: nat)
    requires i <= k <= |s| && !st.mode.Error?
    ensures FailAt(st, s, i) >= k <==> !Run(st, s[..k], i).mode.Error?
    decreases k - i
  {
    if i < k {
      var next := Step(st, s[i], i);
      assert s[..k][i] == s[i];
      if next.mode.Error? { Final(next, s[..k], i + 1); } else { FailPrefix(next, s, i + 1, k); }
    }
  }

  /**
    The scan looks at the character behind `length` of them when all but the last of them pass: the
    next character is read before the length and the state are looked at.
   */
  predicate ReadsBehind(value: string, length: nat) {
    var text := Visible(value, length);
    |text| == |value| && (text == "" || Viable(text[..|text| - 1]))
  }

  lemma BehindMeansFail(value: string, length: nat)
    ensures var text := Visible(value, length);
            ReadsBehind(value, length) <==> |text| == |value| && FailAt(INITIAL, text, 0) + 1 >= |text|
  {
    var text := Visible(value, length);
    if text != "" {
      FailPrefix(INITIAL, text, 0, |text| - 1);
      ViableExactly(text[..|text| - 1]);
    }
  }

  // ----- the object -----

  class Addr6Object {
    const ip: array<byte>
    var port: nat

    ghost predicate Valid()
      reads this
    {
      ip.Length == 16 && port <= 0xffff
    }

    constructor ()
      ensures Valid() && fresh(ip) && ip[..] == Ip6Parser.UNSPECIFIED && port == 0
    {
      ip := new byte[16](_ => 0);
      port := 0;
    }

    /**
      The buffer is `value`, terminated or at least `lengthIn` characters long. The loop reads the
      next character before it looks at the length and the state. `inside` tells whether that stays
      in the buffer and the address parser in its array.
     */
    method FromStr(value: string, lengthIn: nat) returns (success: bool, inside: bool)
      requires Valid() && Readable(value, lengthIn)
      modifies this, ip
      ensures Valid()
      ensures inside <==> !ReadsBehind(value, lengthIn) && Parse(Visible(value, lengthIn)) != Undefined
      ensures inside ==> Addr(ip[..], port, success) == Parse(Visible(value, lengthIn))
    {
      ghost var text := Visible(value, lengthIn);
      var state := Open;
      var ipPtr: nat, ipLength: nat, ptr: nat, accum: nat := 0, 0, 0, 0;
      var length := lengthIn;
      assert |text| == |value| ==> text == value && lengthIn <= |value|;
      while ptr < |value| && value[ptr] != NUL && length > 0 && state != Error
        invariant accum < U64
        invariant ptr <= |text| && length == lengthIn - ptr
        invariant state == Open ==> ptr == 0 && ipPtr == 0 && ipLength == 0
        invariant state != Open && state != Error ==> ipPtr == 1 && 1 <= ptr && 1 + ipLength <= ptr
        invariant state != Error ==> Run(State(state, ipLength, accum), text, ptr) == Run(INITIAL, text, 0)
        invariant state != Error ==> FailAt(State(state, ipLength, accum), text, ptr) == FailAt(INITIAL, text, 0)
        invariant state == Error ==> Run(INITIAL, text, 0).mode.Error? && FailAt(INITIAL, text, 0) == ptr - 1
        decreases length
      {
        length := length - 1;
        var c := value[ptr];
        assert c == text[ptr];
        ghost var before := State(state, ipLength, accum);
        match state {
          case Open =>
            if c == '[' {
              ipPtr := ptr + 1;
              state := Inside;
            } else {
              state := Error;
            }
          case Inside =>
            if c == ']' {
              ipLength := ptr - ipPtr;
              state := if ipLength >= 2 then Close else Error;
            } else if !IsAddressChar(c) {
              state := Error;
            }
          case Close =>
            state := if c == ':' then Port else Error;
          case Port =>
            if IsDec(c) {
              accum := (accum * 10 + Digit(c)) % U64;
            } else if accum != 0 {
              state := End;
            } else {
              state := Error;
            }
          case _ =>
        }
        assert State(state, ipLength, accum) == Step(before, c, ptr);
        ptr := ptr + 1;
      }
      BehindMeansFail(value, lengthIn);
      if ptr >= |value| {
        return false, false;
      }
      success, inside := Store(value, lengthIn, State(state, ipLength, accum), ipPtr);
    }

    /** What happens to the fields after the scan. */
    method Store(value: string, ghost length: nat, st: State, ipPtr: nat) returns (success: bool, inside: bool)
      requires Valid() && Readable(value, length)
      requires !st.mode.Error? ==> ipPtr + st.ipLength <= |Visible(value, length)|
      requires !st.mode.Error? ==> (if st.ipLength == 0 then true else ipPtr == 1)
      modifies this, ip
      ensures Valid() && (inside <==> Finish(st, Visible(value, length)) != Undefined)
      ensures inside ==> Addr(ip[..], port, success) == Finish(st, Visible(value, length))
    {
      ghost var text := Visible(value, length);
      success, inside := false, true;
      if st.mode != Error {
        var part := value[ipPtr..ipPtr + st.ipLength];
        assert part == Inner(st, text);
        VisibleAll(part, text);
        success, inside := Ip6Parser.FromStr(ip, part, st.ipLength);
        if !inside {
          return;
        }
      }
      if st.mode == Error || st.accum > 0xffff {
        success := false;
        forall i | 0 <= i < 16 { ip[i] := 0; }
        assert ip[..] == Ip6Parser.UNSPECIFIED;
        port := 0;
      } else {
        port := st.accum;
      }
    }

    method ToStr(reduction: bool, embedded: bool) returns (text: string)
      requires Valid()
      ensures text == ToText(ip[..], port, reduction, embedded)
    {
      var inner := Ip6Printer.ToStr(ip, reduction, embedded);
      text := "[" + inner + "]:" + Numeral(10, port);
    }
  }

  lemma VisibleAll(part: string, text: string)
    requires NUL !in text && forall c :: c in part ==> c in text
    ensures Readable(part, |part|) && Visible(part, |part|) == part
  {
    VisibleTerminated(part, "", |part|);
  }
}
