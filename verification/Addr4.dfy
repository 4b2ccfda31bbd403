/** IPv4 socket addresses: "ip:port" text. */
module Addr4 {
  import opened Text
  import Ip4

  /** The fields after a parse and the success flag. */
  datatype Addr = Addr(ip: seq<byte>, port: nat, ok: bool)

  const EMPTY := Addr(Ip4.ZERO, 0, false)

  predicate HostChar(c: char) {
    IsHex(c) || c == 'x' || c == '.'
  }

  /** The scan from position `i`: the length of the address part and the port accumulator. */
  function Scan(s: string, i: nat, ipLength: nat, accum: nat): (r: (nat, nat))
    requires i <= |s| && ipLength <= i && accum < U64
    ensures r.0 <= |s| && r.1 < U64
    decreases |s| - i
  {
    if i == |s| then (ipLength, accum)
    else if ipLength == 0 then
      if s[i] == ':' then Scan(s, i + 1, i, accum)
      else if HostChar(s[i]) then Scan(s, i + 1, 0, accum)
      else (0, accum)
    else if IsDec(s[i]) then Scan(s, i + 1, ipLength, (accum * 10 + Digit(s[i])) % U64)
    else (ipLength, accum)
  }

  function Parse(s: string): Addr {
    var (ipLength, accum) := Scan(s, 0, 0, 0);
    var r := Ip4.Parse(s[..ipLength]);
    if ipLength == 0 || accum == 0 || accum > 0xffff then EMPTY
    else Addr(if r.Parsed? then r.bytes else Ip4.ZERO, accum, r.Parsed?)
  }

  function ToText(b: seq<byte>, port: nat): string
    requires |b| == 4
  {
    Ip4.ToStr(b) + ":" + Numeral(10, port)
  }

  // ----- what is accepted -----

  /** An address text in the host alphabet, the first colon, and a port from 1 to 65535. */
  predicate Accepts(s: string) {
    var c := IndexOf(s, ':');
    && c < |s|
    && (forall i :: 0 <= i < c ==> HostChar(s[i]))
    && Ip4.Parse(s[..c]).Parsed?
    && 0 < PortOf(s[c + 1..]) <= 0xffff
  }

  lemma {:induction false} ScanHost(s: string, i: nat, c: nat)
    requires i <= c <= |s| && forall j :: i <= j < c ==> HostChar(s[j])
    ensures Scan(s, i, 0, 0) == Scan(s, c, 0, 0)
    decreases c - i
  {
    if i < c { ScanHost(s, i + 1, c); }
  }

  lemma {:induction false} ScanPort(s: string, i: nat, ipLength: nat, accum: nat)
    requires i <= |s| && 0 < ipLength <= i && accum < U64
    ensures var t := s[i..];
            Scan(s, i, ipLength, accum) == (ipLength, Accumulate(U64, 10, accum, t[..LeadingDigits(t)]))
    decreases |s| - i
  {
    var t := s[i..];
    if i < |s| && IsDec(s[i]) {
      ScanPort(s, i + 1, ipLength, (accum * 10 + Digit(s[i])) % U64);
      assert t[1..] == s[i + 1..];
      assert t[..LeadingDigits(t)][1..] == t[1..][..LeadingDigits(t[1..])];
    }
  }

  /** A character outside the host alphabet before any colon leaves the address part empty. */
  lemma {:induction false} ScanStops(s: string, i: nat, c: nat)
    requires i <= c < |s| && !HostChar(s[c]) && s[c] != ':'
    requires forall j :: i <= j < c ==> HostChar(s[j])
    ensures Scan(s, i, 0, 0).0 == 0
    decreases c - i
  {
    ScanHost(s, i, c);
  }

  /** Whatever the address parser accepts starts with a digit. */
  lemma AcceptedStart(t: string)
    requires Ip4.Parse(t).Parsed?
    ensures t != "" && IsDec(t[0])
  {
  }

  /** The parser succeeds on exactly the texts described, and then reads both parts. */
  lemma AcceptsExactly(s: string)
    ensures Parse(s).ok <==> Accepts(s)
    ensures Accepts(s) ==>
              var c := IndexOf(s, ':');
              Parse(s) == Addr(Ip4.Parse(s[..c]).bytes, PortOf(s[c + 1..]), true)
  {
    var c := IndexOf(s, ':');
    var f := FirstForeign(HostChar, s, 0, c);
    if f < c {
      assert s[f] == s[..c][f] && s[..c][f] in s[..c];
      ScanStops(s, 0, f);
    } else {
      ScanHost(s, 0, c);
      if c < |s| {
        if c > 0 {
          ScanPort(s, c + 1, c, 0);
        } else {
          assert s[..0] == "";
          LeadingColon(s);
        }
      }
    }
  }

  /** A text that starts with a colon is never accepted. */
  lemma LeadingColon(s: string)
    requires s != "" && s[0] == ':'
    ensures !Parse(s).ok && !Ip4.Parse(s[..0]).Parsed?
  {
    var (ipLength, accum) := Scan(s, 0, 0, 0);
    if Ip4.Parse(s[..ipLength]).Parsed? { AcceptedStart(s[..ipLength]); }
    if Ip4.Parse(s[..0]).Parsed? { AcceptedStart(s[..0]); }
  }

  /** The characters of an accepted IPv4 text. */
  lemma {:induction false} RunAlphabet(st: Ip4.State, s: string)
    requires !st.mode.Cont? && !Ip4.Run(st, s).mode.Error? && !Ip4.Run(st, s).mode.Bare?
    ensures forall i :: 0 <= i < |s| ==> HostChar(s[i]) || s[i] == 'X'
    decreases |s|
  {
    if s != "" {
      if st.mode.Start? && s[0] == '0' && |s| >= 3 && Ip4.IsHexMark(s[1]) {
        var next := Ip4.Digest(st.(mode := Ip4.Hex), s[2]);
        assert !next.mode.Error?;
        RunAlphabet(next, s[3..]);
        assert forall i :: 3 <= i < |s| ==> s[i] == s[3..][i - 3];
      } else {
        var next := Ip4.Digest(if st.mode.Start? then st.(mode := Ip4.Dec) else st, s[0]);
        assert !next.mode.Error?;
        RunAlphabet(next, s[1..]);
        assert forall i :: 1 <= i < |s| ==> s[i] == s[1..][i - 1];
      }
    }
  }

  /**
    The header promises every format of the address parser before ":port". When the parser sees the
    whole text that holds exactly for the texts without an upper-case hex mark.
   */
  lemma EveryFormat(t: string, w: string)
    requires Ip4.Parse(t).Parsed? && w != "" && AllDec(w) && 0 < DecVal(w) <= 0xffff
    ensures Parse(t + ":" + w).ok <==> 'X' !in t
    ensures 'X' !in t ==> Parse(t + ":" + w) == Addr(Ip4.Parse(t).bytes, DecVal(w), true)
  {
    RunAlphabet(Ip4.INITIAL, t);
    assert (forall i :: 0 <= i < |t| ==> HostChar(t[i])) <==> 'X' !in t;
    assert ':' !in t;
    Parts(t, w);
    PortOfDigits(w);
    AcceptsExactly(t + ":" + w);
  }

  lemma Parts(t: string, w: string)
    requires ':' !in t
    ensures var s := t + ":" + w;
            && IndexOf(s, ':') == |t| < |s| && s[..|t|] == t && s[|t| + 1..] == w
            && forall i :: 0 <= i < |t| ==> s[i] == t[i]
  {
    var s := t + ":" + w;
    assert s == t + (":" + w);
    IndexOfConcat(t, ':', ":" + w);
  }

  lemma TextFits(b: seq<byte>, port: nat)
    requires |b| == 4 && port <= 0xffff
    ensures |ToText(b, port)| <= 21 && NUL !in ToText(b, port)
    ensures 'X' !in Ip4.ToStr(b) && ':' !in Ip4.ToStr(b)
  {
    var t, w := Ip4.ToStr(b), Numeral(10, port);
    Ip4.RoundTrip(b);
    NumeralLengths(port);
    assert NUL !in t && NUL !in w;
  }

  /** The printed text: the text of the address, a colon, and the port in base 10. */
  lemma Printed(b: seq<byte>, port: nat, t: string, w: string)
    requires |b| == 4 && port <= 0xffff && ':' !in t && ToText(b, port) == t + ":" + w
    ensures t == Ip4.ToStr(b) && w == Numeral(10, port)
  {
    TextFits(b, port);
    Parts(Ip4.ToStr(b), Numeral(10, port));
    Parts(t, w);
  }

  /** Printing and parsing: the address comes back exactly when the port is not zero. */
  lemma RoundTrip(b: seq<byte>, port: nat)
    requires |b| == 4 && port <= 0xffff
    ensures Parse(ToText(b, port)).ok <==> port != 0
    ensures port != 0 ==> Parse(ToText(b, port)) == Addr(b, port, true)
    ensures |ToText(b, port)| <= 21 && NUL !in ToText(b, port)
  {
    var t, w := Ip4.ToStr(b), Numeral(10, port);
    Ip4.RoundTrip(b);
    TextFits(b, port);
    NumeralValue(10, port);
    if port != 0 {
      EveryFormat(t, w);
    } else {
      Parts(t, w);
      PortOfDigits(w);
      AcceptsExactly(t + ":" + w);
    }
  }

  // ----- the fields, in characters and numbers -----

  lemma HostChars(c: char)
    ensures HostChar(c) <==> c in "0123456789abcdefABCDEFx."
  {
    DigitsAre(c);
    assert "0123456789abcdefABCDEFx." == "0123456789abcdefABCDEF" + "x.";
  }

  /**
    The fields after a text that has a port. A colon in front of everything does not end the address
    part. The port is what the digits write, modulo 2^64, and whatever follows them is ignored. Without
    a port from 1 to 65535 everything is reset; otherwise the port is kept even when the address is
    refused.
   */
  lemma FieldsExactly(s: string, t: string, w: string, junk: string)
    requires s == t + (":" + (w + junk)) && t != ""
    requires forall i :: 0 <= i < |t| ==> t[i] in "0123456789abcdefABCDEFx." || (i == 0 && t[i] == ':')
    requires (forall k :: 0 <= k < |w| ==> '0' <= w[k] <= '9') && (junk != "" ==> !('0' <= junk[0] <= '9'))
    ensures var port, ip := DecVal(w) % 0x1_0000_0000_0000_0000, Ip4.Parse(t);
            Parse(s) == if port == 0 || port > 65535 then Addr([0, 0, 0, 0], 0, false)
                        else if ip.Parsed? then Addr(ip.bytes, port, true) else Addr([0, 0, 0, 0], port, false)
  {
    var c := |t|;
    assert s[..c] == t && s[c] == ':' && s[c + 1..] == w + junk;
    forall i | 0 <= i < c ensures HostChar(s[i]) || (i == 0 && s[i] == ':') { assert s[i] == t[i]; HostChars(t[i]); }
    ScanFields(s, c, w + junk);
    PortIs(w, junk);
  }

  lemma ScanFields(s: string, c: nat, rest: string)
    requires 1 <= c < |s| && s[c] == ':' && s[c + 1..] == rest
    requires forall i :: 0 <= i < c ==> HostChar(s[i]) || (i == 0 && s[i] == ':')
    ensures Scan(s, 0, 0, 0) == (c, PortOf(rest))
  {
    assert Scan(s, 0, 0, 0) == Scan(s, 1, 0, 0);
    ScanHost(s, 1, c);
    ScanPort(s, c + 1, c, 0);
  }

  lemma PortIs(w: string, junk: string)
    requires AllDec(w) && (junk == "" || !IsDec(junk[0]))
    ensures PortOf(w + junk) == DecVal(w) % U64
  {
    LeadingDigitsConcat(w, junk);
    assert (w + junk)[..|w|] == w;
  }

  /** All other texts reset everything: in front of each colon but a first one stands a character that no address has. */
  lemma FieldsEmpty(s: string)
    requires forall i :: 1 <= i < |s| && s[i] == ':' ==>
               exists j :: 0 <= j < i && s[j] !in "0123456789abcdefABCDEFx." && (j == 0 ==> s[j] != ':')
    ensures Parse(s) == Addr([0, 0, 0, 0], 0, false)
  {
    if s != "" {
      var c := HostEnd(s);
      assert c < |s| ==> s[c] == s[1..][c - 1];
      forall i | 0 <= i < |s| ensures HostChar(s[i]) <==> s[i] in "0123456789abcdefABCDEFx." { HostChars(s[i]); }
      if s[0] == ':' || HostChar(s[0]) {
        var f := FirstForeign(HostChar, s, 1, c);
        ScanHost(s, 1, f);
        if f < c { assert s[f] == s[1..][f - 1]; }
      }
    }
  }

  // ----- how far the scan reads -----

  /** Where the scan breaks off, or the end of the text. */
  function StopAt(s: string, i: nat, ipLength: nat): (k: nat)
    requires i <= |s|
    ensures i <= k <= |s|
    decreases |s| - i
  {
    if i == |s| then i
    else if ipLength == 0 then
      if s[i] == ':' then StopAt(s, i + 1, i)
      else if HostChar(s[i]) then StopAt(s, i + 1, 0)
      else i
    else if IsDec(s[i]) then StopAt(s, i + 1, ipLength)
    else i
  }

  /** The first colon that can end an address part: a colon in front of everything does not. */
  function HostEnd(s: string): (c: nat)
    ensures c <= |s|
  {
    if s == "" then 0 else 1 + IndexOf(s[1..], ':')
  }

  /** Host characters up to the colon and digits after it, so nothing stops the scan. */
  predicate ScansAll(s: string) {
    var c := HostEnd(s);
    && (forall i :: 0 <= i < c ==> HostChar(s[i]) || (i == 0 && s[0] == ':'))
    && (forall i :: c < i < |s| ==> IsDec(s[i]))
  }

  lemma {:induction false} StopInPort(s: string, i: nat, ipLength: nat)
    requires i <= |s| && ipLength > 0
    ensures StopAt(s, i, ipLength) == |s| <==> forall j :: i <= j < |s| ==> IsDec(s[j])
    decreases |s| - i
  {
    if i < |s| { StopInPort(s, i + 1, ipLength); }
  }

  lemma {:induction false} StopInHost(s: string, i: nat, c: nat)
    requires 1 <= i <= c <= |s| && (c < |s| ==> s[c] == ':') && forall j :: i <= j < c ==> s[j] != ':'
    ensures StopAt(s, i, 0) == |s| <==>
            (forall j :: i <= j < c ==> HostChar(s[j])) && (forall j :: c < j < |s| ==> IsDec(s[j]))
    decreases c - i
  {
    if i < c {
      StopInHost(s, i + 1, c);
    } else if c < |s| {
      StopInPort(s, c + 1, c);
    }
  }

  lemma StopExactly(s: string)
    ensures StopAt(s, 0, 0) == |s| <==> ScansAll(s)
  {
    if s != "" {
      var c := HostEnd(s);
      assert forall j :: 1 <= j < c ==> s[j] == s[1..][..c - 1][j - 1] && s[1..][..c - 1][j - 1] in s[1..][..c - 1];
      assert c < |s| ==> s[c] == s[1..][c - 1];
      StopInHost(s, 1, c);
    }
  }

  /** The scan looks at the character behind `length` of them when nothing stops it before. */
  predicate ReadsBehind(value: string, length: nat) {
    ScansAll(Visible(value, length)) && |Visible(value, length)| == |value|
  }

  // ----- the object -----

  class Addr4Object {
    const ip: array<byte>
    var port: nat

    ghost predicate Valid()
      reads this
    {
      ip.Length == 4 && port <= 0xffff
    }

    constructor ()
      ensures Valid() && fresh(ip) && ip[..] == Ip4.ZERO && port == 0
    {
      ip := new byte[4](_ => 0);
      port := 0;
    }

    /**
      The buffer is `value`, terminated or at least `lengthIn` characters long. The loop reads the
      next character before it looks at the length; `inside` tells whether that stays in the buffer.
     */
    method FromStr(value: string, lengthIn: nat) returns (success: bool, inside: bool)
      requires Valid() && Readable(value, lengthIn)
      modifies this, ip
      ensures Valid() && (inside <==> !ReadsBehind(value, lengthIn))
      ensures inside ==> Addr(ip[..], port, success) == Parse(Visible(value, lengthIn))
    {
      ghost var text := Visible(value, lengthIn);
      var ipLength, ptr, accum: nat := 0, 0, 0;
      var length := lengthIn;
      assert |text| == |value| ==> text == value && lengthIn <= |value|;
      while ptr < |value| && value[ptr] != NUL && length > 0
        invariant ptr <= |text| && length == lengthIn - ptr && ipLength <= ptr && accum < U64
        invariant Scan(text, ptr, ipLength, accum) == Scan(text, 0, 0, 0)
        invariant StopAt(text, ptr, ipLength) == StopAt(text, 0, 0)
        decreases length
      {
        length := length - 1;
        var c := value[ptr];
        assert c == text[ptr];
        if ipLength == 0 {
          if c == ':' {
            ipLength := ptr;
          } else if !HostChar(c) {
            break;
          }
        } else {
          if IsDec(c) {
            accum := (accum * 10 + Digit(c)) % U64;
          } else {
            break;
          }
        }
        ptr := ptr + 1;
      }
      StopExactly(text);
      inside := ptr < |value|;
      if !inside {
        return false, inside;
      }
      success := Store(value, lengthIn, ipLength, accum);
    }

    /** What happens to the fields after the scan. */
    method Store(value: string, ghost length: nat, ipLength: nat, accum: nat) returns (success: bool)
      requires Valid() && Readable(value, length) && accum < U64
      requires Scan(Visible(value, length), 0, 0, 0) == (ipLength, accum)
      modifies this, ip
      ensures Valid() && Addr(ip[..], port, success) == Parse(Visible(value, length))
    {
      VisibleSlice(value, length, ipLength);
      var inside;
      success, inside := Ip4.FromStr(ip, value, ipLength);
      assert inside;
      if ipLength == 0 || accum == 0 || accum > 0xffff {
        success := false;
        forall i | 0 <= i < 4 { ip[i] := 0; }
        assert ip[..] == Ip4.ZERO;
        port := 0;
      } else {
        port := accum;
      }
    }

    method ToStr() returns (text: string)
      requires Valid()
      ensures text == ToText(ip[..], port)
    {
      text := Ip4.ToStr(ip[..]) + ":" + Numeral(10, port);
    }
  }
}
