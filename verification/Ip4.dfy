/** IPv4 addresses: the one-pass text parser, the printer and the uint32 conversions. */
module Ip4 {
  import opened Text
  import Bits
  import Mask

  /** `Bare` is the end of a text whose last number is a hex mark and nothing else. */
  datatype Mode = Start | Cont | Hex | Dec | Error | Bare
  datatype State = State(mode: Mode, octets: seq<byte>, accum: nat)

  const INITIAL := State(Start, [], 0)
  const FAILED := State(Error, [], 0)
  const ZERO: seq<byte> := [0, 0, 0, 0]

  predicate IsHexMark(c: char) {
    c == 'x' || c == 'X'
  }

  predicate Marked(p: string) {
    |p| >= 2 && p[0] == '0' && IsHexMark(p[1])
  }

  predicate DigitOf(mode: Mode, c: char) {
    (mode.Dec? && IsDec(c)) || (mode.Hex? && IsHex(c))
  }

  function BaseOf(mode: Mode): nat {
    if mode.Hex? then 16 else 10
  }

  // ----- the parser as a function on the visible text -----

  /** One character inside a number. */
  function Digest(st: State, c: char): State
    requires st.mode.Dec? || st.mode.Hex?
  {
    if st.mode.Dec? && IsDec(c) then st.(accum := (st.accum * 10 + Digit(c)) % U32)
    else if st.mode.Hex? && IsHex(c) then st.(accum := (st.accum * 16 + Digit(c)) % U32)
    else if c == '.' && st.accum <= 0xff && |st.octets| < 3 then
      State(Start, st.octets + [st.accum], 0)
    else
      FAILED
  }

  function Run(st: State, s: string): State
    requires !st.mode.Cont?
    decreases |s|
  {
    if s == "" || st.mode.Error? || st.mode.Bare? then st
    else if st.mode.Start? then
      if !IsDec(s[0]) then FAILED
      else if Marked(s) && |s| == 2 then st.(mode := Bare)
      else if Marked(s) then
        Run(Digest(st.(mode := Hex), s[2]), s[3..])
      else
        Run(Digest(st.(mode := Dec), s[0]), s[1..])
    else
      Run(Digest(st, s[0]), s[1..])
  }

  /** The address written from the octets before the last number and that number. */
  function Assemble(octets: seq<byte>, last: nat): (b: seq<byte>)
    requires |octets| <= 3 && last < U32
    ensures |b| == 4
  {
    if octets == [] then FromUint32(last)
    else if last > 0xff then ZERO
    else octets + ZERO[..3 - |octets|] + [last]
  }

  function Finish(st: State): Outcome {
    if st.mode.Error? || st.mode.Bare? || st.mode.Start? || |st.octets| > 3 || st.accum >= U32 then Rejected
    else Parsed(Assemble(st.octets, st.accum))
  }

  function Parse(s: string): Outcome {
    Finish(Run(INITIAL, s))
  }

  // ----- uint32 conversions (big-endian bytes) -----

  function FromUint32(n: nat): (b: seq<byte>)
    requires n < U32
    ensures |b| == 4
    ensures n == b[0] as int * 0x100_0000 + b[1] as int * 0x1_0000 + b[2] as int * 0x100 + b[3] as int
  {
    Positions(n);
    [n / 0x100_0000, n / 0x1_0000 % 0x100, n / 0x100 % 0x100, n % 0x100]
  }

  function ToUint32(b: seq<byte>): (n: nat)
    requires |b| == 4
    ensures n < U32
  {
    b[0] as int * 0x100_0000 + b[1] as int * 0x1_0000 + b[2] as int * 0x100 + b[3]
  }

  lemma Positions(n: nat)
    requires n < U32
    ensures n == n / 0x100_0000 * 0x100_0000 + n / 0x1_0000 % 0x100 * 0x1_0000 + n / 0x100 % 0x100 * 0x100 + n % 0x100
  {
    var n1, n2 := n / 0x100, n / 0x1_0000;
    assert n1 / 0x100 == n2 && n2 / 0x100 == n / 0x100_0000;
    assert n == n1 * 0x100 + n % 0x100 && n1 == n2 * 0x100 + n1 % 0x100 && n2 == n2 / 0x100 * 0x100 + n2 % 0x100;
  }

  lemma FromToUint32(n: nat)
    requires n < U32
    ensures ToUint32(FromUint32(n)) == n
  {}

  /** Four bytes as a big-endian number. */
  lemma FourBytes(b: seq<byte>)
    requires |b| == 4
    ensures Mask.Number(b) == b[0] as int * 0x100_0000 + b[1] as int * 0x1_0000 + b[2] as int * 0x100 + b[3] as int
  {
    assert Bits.Pow2(8) == 0x100 && Bits.Pow2(16) == 0x1_0000 && Bits.Pow2(24) == 0x100_0000 by {
      Mask.Pow2Eight();
      Bits.Pow2Add(8, 8);
      Bits.Pow2Add(8, 16);
    }
    assert b[1..][1..] == b[2..] && b[2..][1..] == b[3..] && b[3..][1..] == [];
    assert Mask.Number(b[3..]) == b[3] as int * Bits.Pow2(0) + Mask.Number(b[3..][1..]);
    assert Mask.Number(b[2..]) == b[2] as int * Bits.Pow2(8) + Mask.Number(b[2..][1..]);
    assert Mask.Number(b[1..]) == b[1] as int * Bits.Pow2(16) + Mask.Number(b[1..][1..]);
  }

  lemma ToFromUint32(b: seq<byte>)
    requires |b| == 4
    ensures FromUint32(ToUint32(b)) == b
  {
    var m := ToUint32(b);
    var m1: nat := b[0] as int * 0x1_0000 + b[1] as int * 0x100 + b[2] as int;
    var m2: nat := b[0] as int * 0x100 + b[1] as int;
    assert m == m1 * 0x100 + b[3] && m1 == m2 * 0x100 + b[2];
    assert m / 0x100 == m1 && m % 0x100 == b[3];
    assert m / 0x1_0000 == m2 && m1 % 0x100 == b[2];
    assert m / 0x100_0000 == b[0] && m2 % 0x100 == b[1];
  }

  /** The two conversions are inverse bijections, and both take the bytes as a big-endian number. */
  lemma Uint32RoundTrip(n: nat, b: seq<byte>)
    requires n < U32 && |b| == 4
    ensures ToUint32(FromUint32(n)) == n && Mask.Number(FromUint32(n)) == n
    ensures FromUint32(ToUint32(b)) == b && Mask.Number(b) == ToUint32(b)
  {
    FromToUint32(n);
    ToFromUint32(b);
    FourBytes(FromUint32(n));
    FourBytes(b);
  }

  // ----- the parser as the source writes it -----

  /**
    The last number is a bare hex mark that a terminator follows: the source steps over that
    terminator and then reads the character behind it.
   */
  predicate ReadsBehind(value: string, length: nat) {
    var text := Visible(value, length);
    Run(INITIAL, text).mode.Bare? && |text| + 1 == |value| < length
  }

  /**
    The buffer is `value`, which is terminated or at least `length` characters long. The loop reads
    the next character before it looks at the state. `inside` tells whether every read stays in the
    buffer; the scan stops where one would not.
   */
  method FromStr(self: array<byte>, value: string, length: nat) returns (success: bool, inside: bool)
    requires self.Length == 4 && Readable(value, length)
    modifies self
    ensures inside <==> !ReadsBehind(value, length)
    ensures inside ==> success == Parse(Visible(value, length)).Parsed?
    ensures inside ==> self[..] == if success then Parse(Visible(value, length)).bytes else ZERO
  {
    ghost var text := Visible(value, length);
    var state := Start;
    var result: array<byte> := new byte[3](_ => 0);
    var octet := 0;
    var accum: nat := 0;
    var pos := 0;
    var remaining := length;
    ghost var left := text;
    ghost var cut := false;

    while remaining > 0 && pos < |value| && value[pos] != NUL && state != Error
      invariant fresh(result) && result.Length == 3 && 0 <= octet <= 3 && accum < U32
      invariant (state.Start? ==> accum == 0) && !state.Cont? && !state.Bare?
      invariant remaining == length - pos >= 0 && pos <= |text| + 1 && pos <= |value|
      invariant state != Error ==> pos <= |text| && left == text[pos..]
      invariant state != Error && !cut ==> Run(State(state, result[..octet], accum), left) == Run(INITIAL, text)
      invariant state != Error && cut ==> state == Dec && |left| == 1 && IsHexMark(left[0])
      invariant cut ==> Run(INITIAL, text).mode.Bare? && length == |text|
      invariant pos > |text| ==> state == Error && Run(INITIAL, text).mode.Bare?
      invariant state == Error && pos <= |text| ==> cut || Run(INITIAL, text).mode.Error?
      decreases remaining
    {
      ghost var bare := state == Start && BareMark(left);
      var width;
      state, octet, accum, width := Turn(value, pos, remaining, result, state, octet, accum, left);
      cut := cut || (bare && width == 1);
      left := if width <= |left| then left[width..] else "";
      pos := pos + width;
      remaining := remaining - width;
    }

    inside := remaining == 0 || pos < |value|;
    assert |text| == |value| ==> text == value && length <= |value|;
    if !inside {
      return false, inside;
    }
    if state == Error || state == Start {
      forall i | 0 <= i < 4 { self[i] := 0; }
      return false, inside;
    }
    assert Run(INITIAL, text) == State(state, result[..octet], accum) by {
      assert pos == |text|;
      assert left == "";
    }
    Store(self, result, octet, accum);
    return true, inside;
  }

  /** `rest` is what can still be seen of `value` from `pos`, with `remaining` characters allowed. */
  predicate Ahead(value: string, pos: nat, remaining: nat, rest: string) {
    && pos + |rest| <= |value| && value[pos..pos + |rest|] == rest && |rest| <= remaining
    && (|rest| < remaining ==> pos + |rest| < |value| && value[pos + |rest|] == NUL)
  }

  /** One turn of the loop; `width` counts the characters it used. */
  method Turn(value: string, pos: nat, remainingIn: nat, result: array<byte>, before: Mode, octetIn: nat, accumIn: nat,
              ghost rest: string)
    returns (state: Mode, octet: nat, accum: nat, width: nat)
    requires result.Length == 3 && octetIn <= 3 && accumIn < U32
    requires before.Start? || before.Dec? || before.Hex?
    requires Ahead(value, pos, remainingIn, rest) && rest != ""
    modifies result
    ensures octet <= 3 && accum < U32 && (state.Start? ==> accum == 0) && !state.Cont? && !state.Bare?
    ensures var st := State(before, old(result[..octetIn]), accumIn);
            if before.Start? && BareMark(rest) then
              if remainingIn == 2 then width == 1 && state == Dec else width == 3 && state == Error
            else
              && 1 <= width <= |rest|
              && if state == Error then Run(st, rest).mode.Error?
                 else Run(State(state, result[..octet], accum), rest[width..]) == Run(st, rest)
    ensures before.Dec? && !IsDec(rest[0]) && rest[0] != '.' ==> state == Error
  {
    assert rest[0] == value[pos] && (|rest| >= 2 ==> rest[1] == value[pos + 1]) && (|rest| >= 3 ==> rest[2] == value[pos + 2]);
    var remaining := remainingIn - 1;
    ghost var st := State(before, result[..octetIn], accumIn);
    state, octet, accum, width := before, octetIn, accumIn, 1;
    if state == Start {
      if !IsDec(value[pos]) {
        state := Error;
      } else if value[pos] == '0' && remaining >= 2 && IsHexMark(value[pos + 1]) {
        width := 3;
        state := Hex;
      } else {
        state := Dec;
      }
    }
    ghost var entered := state;
    if state != Error {
      state, octet, accum := Feed(result, state, octet, accum, value[pos + width - 1]);
      if !(before.Start? && BareMark(rest)) { RunChar(st, rest, width - 1, entered); }
    }
  }

  /** The two number states and the transient `Cont`, for one character. */
  method Feed(result: array<byte>, before: Mode, octetIn: nat, accumIn: nat, c: char)
    returns (state: Mode, octet: nat, accum: nat)
    requires result.Length == 3 && octetIn <= 3 && accumIn < U32
    requires before.Dec? || before.Hex?
    modifies result
    ensures octet <= 3 && accum < U32 && (state.Start? ==> accum == 0) && !state.Cont?
    ensures Digest(State(before, old(result[..octetIn]), accumIn), c)
         == if state == Error then FAILED else State(state, result[..octet], accum)
  {
    state, octet, accum := before, octetIn, accumIn;
    if state == Dec {
      if IsDec(c) {
        accum := (accum * 10 + Digit(c)) % U32;
      } else if c == '.' {
        state := Cont;
      } else {
        state := Error;
      }
    } else if state == Hex {
      if IsHex(c) {
        accum := (accum * 16 + Digit(c)) % U32;
      } else if c == '.' {
        state := Cont;
      } else {
        state := Error;
      }
    }
    if state == Cont {
      if accum > 0xff || octet >= 3 {
        state := Error;
      } else {
        result[octet] := accum;
        octet := octet + 1;
        accum := 0;
        state := Start;
        assert result[..octet] == old(result[..octetIn]) + [accumIn];
      }
    }
  }

  /** The writes that follow a successful scan. */
  method Store(self: array<byte>, result: array<byte>, octet: nat, accum: nat)
    requires self.Length == 4 && result.Length == 3 && self != result
    requires octet <= 3 && accum < U32
    modifies self
    ensures self[..] == Assemble(result[..octet], accum)
  {
    if octet != 0 {
      if accum > 0xff {
        forall i | 0 <= i < 4 { self[i] := 0; }
        assert self[..] == ZERO;
      } else {
        for i := 0 to octet
          modifies self
          invariant self[..i] == result[..i]
        {
          self[i] := result[i];
        }
        for i := octet to 3
          modifies self
          invariant self[..octet] == result[..octet] && forall j :: octet <= j < i ==> self[j] == 0
        {
          self[i] := 0;
        }
        self[3] := accum;
        assert self[..] == result[..octet] + ZERO[..3 - octet] + [accum];
      }
    } else {
      var b := FromUint32(accum);
      forall i | 0 <= i < 4 { self[i] := b[i]; }
      assert self[..] == b;
    }
  }

  /** The scan of one character, entered in the mode that the source has set by then. */
  lemma RunChar(st: State, s: string, skip: nat, entered: Mode)
    requires st.mode.Start? || st.mode.Dec? || st.mode.Hex?
    requires if st.mode.Start? then
               && s != "" && IsDec(s[0]) && !(Marked(s) && |s| == 2)
               && (if Marked(s) then skip == 2 && entered == Hex else skip == 0 && entered == Dec)
             else
               s != "" && skip == 0 && entered == st.mode
    ensures Run(st, s) == Run(Digest(st.(mode := entered), s[skip]), s[skip + 1..])
  {}

  // ----- the printer -----

  function Join(parts: seq<string>): string {
    if parts == [] then ""
    else if |parts| == 1 then parts[0]
    else parts[0] + "." + Join(parts[1..])
  }

  function ToStr(b: seq<byte>): string
    requires |b| == 4
  {
    Numeral(10, b[0]) + "." + Numeral(10, b[1]) + "." + Numeral(10, b[2]) + "." + Numeral(10, b[3])
  }

  // ----- what the parser accepts: a reference definition on whole texts -----

  predicate BareMark(p: string) {
    Marked(p) && |p| == 2
  }

  /** One number of an address: decimal digits, or a hex mark and hex digits. */
  predicate IsNumber(p: string, last: bool) {
    if Marked(p) then AllHex(p[2..]) && (last ==> |p| > 2)
    else p != "" && AllDec(p)
  }

  /** The value of a number, as a 32-bit accumulator holds it. */
  function NumberValue(p: string, last: bool): (v: nat)
    requires IsNumber(p, last)
    ensures v < U32
  {
    (if Marked(p) then HexVal(p[2..]) else DecVal(p)) % U32
  }

  /** The pieces of a text between its dots. */
  function Split(s: string): (ps: seq<string>)
    ensures ps != []
    decreases |s|
  {
    var i := IndexOf(s, '.');
    if i == |s| then [s] else [s[..i]] + Split(s[i + 1..])
  }

  predicate IsOctet(p: string) {
    IsNumber(p, false) && NumberValue(p, false) <= 0xff
  }

  function OctetValue(p: string): byte
    requires IsOctet(p)
  {
    NumberValue(p, false)
  }

  /** Pieces that follow `before` octets: octets, and a last number of any size. */
  predicate Acceptable(before: nat, ps: seq<string>)
    requires ps != []
  {
    && before + |ps| <= 4
    && (forall i :: 0 <= i < |ps| - 1 ==> IsOctet(ps[i]))
    && IsNumber(ps[|ps| - 1], true)
  }

  /** Octets and then a bare hex mark in the place of a number. */
  predicate EndsBare(before: nat, ps: seq<string>)
    requires ps != []
  {
    && before + |ps| <= 4
    && (forall i :: 0 <= i < |ps| - 1 ==> IsOctet(ps[i]))
    && BareMark(ps[|ps| - 1])
  }

  function Octets(ps: seq<string>): (b: seq<byte>)
    requires forall i :: 0 <= i < |ps| ==> IsOctet(ps[i])
    ensures |b| == |ps|
  {
    seq(|ps|, i requires 0 <= i < |ps| && IsOctet(ps[i]) => OctetValue(ps[i]))
  }

  function ReferenceFrom(before: seq<byte>, ps: seq<string>): Outcome
    requires ps != []
  {
    if !Acceptable(|before|, ps) then Rejected
    else Parsed(Assemble(before + Octets(ps[..|ps| - 1]), NumberValue(ps[|ps| - 1], true)))
  }

  /** One to four numbers between dots; a lone number is the whole address. */
  function Reference(s: string): Outcome {
    ReferenceFrom([], Split(s))
  }

  predicate AllOf(mode: Mode, w: string) {
    forall i :: 0 <= i < |w| ==> DigitOf(mode, w[i])
  }

  lemma AllOfHex(mode: Mode, w: string)
    requires AllOf(mode, w)
    ensures AllHex(w)
  {
    forall i | 0 <= i < |w| ensures IsHex(w[i]) {
      assert DigitOf(mode, w[i]);
    }
  }

  /** The digits up to a dot or the end either feed the accumulator or stop the scan. */
  lemma {:induction false} DigitsRun(st: State, w: string, rest: string)
    requires st.mode.Dec? || st.mode.Hex?
    requires '.' !in w && st.accum < U32
    requires rest == "" || rest[0] == '.'
    ensures AllOf(st.mode, w) ==>
              && AllHex(w)
              && Run(st, w + rest) == Run(st.(accum := Accumulate(U32, BaseOf(st.mode), st.accum, w)), rest)
    ensures !AllOf(st.mode, w) ==> Run(st, w + rest).mode.Error?
    decreases |w|
  {
    if w == "" {
      assert w + rest == rest;
    } else {
      assert (w + rest)[1..] == w[1..] + rest;
      var st1 := Digest(st, w[0]);
      if DigitOf(st.mode, w[0]) {
        DigitsRun(st1, w[1..], rest);
        if AllOf(st.mode, w) {
          AllOfHex(st.mode, w);
          assert AllOf(st.mode, w[1..]);
        } else {
          assert !AllOf(st.mode, w[1..]);
        }
      }
    }
  }

  /** Scanning one piece: a number leaves its value in the accumulator. */
  lemma PieceRun(octets: seq<byte>, p: string, rest: string)
    requires '.' !in p && p + rest != ""
    requires rest == "" || rest[0] == '.'
    ensures var last := rest == "";
            if IsNumber(p, last) then
              exists mode: Mode :: (mode.Dec? || mode.Hex?) &&
                Run(State(Start, octets, 0), p + rest) == Run(State(mode, octets, NumberValue(p, last)), rest)
            else if last && BareMark(p) then
              Run(State(Start, octets, 0), p + rest).mode.Bare?
            else
              Run(State(Start, octets, 0), p + rest).mode.Error?
  {
    var s := p + rest;
    var st := State(Start, octets, 0);
    if p == "" {
    } else if !IsDec(p[0]) {
    } else if Marked(p) && |s| >= 3 {
      var h := State(Hex, octets, 0);
      assert s[2..] == p[2..] + rest;
      assert Run(st, s) == Run(h, s[2..]) by {
        assert s[2..][1..] == s[3..];
      }
      DigitsRun(h, p[2..], rest);
      if AllHex(p[2..]) {
        assert AllOf(Hex, p[2..]);
        AccumulateIsFoldMod(U32, 16, 0, p[2..]);
      }
    } else if Marked(p) {
      assert s == p;
    } else {
      var d := State(Dec, octets, 0);
      assert Run(st, s) == Run(d, s);
      DigitsRun(d, p, rest);
      if AllDec(p) {
        assert AllOf(Dec, p);
        AccumulateIsFoldMod(U32, 10, 0, p);
      } else {
        assert !AllOf(Dec, p);
      }
    }
  }

  lemma LastPieceMeets(octets: seq<byte>, s: string)
    requires |octets| <= 3 && '.' !in s
    ensures Finish(Run(State(Start, octets, 0), s)) == ReferenceFrom(octets, [s])
    ensures Run(State(Start, octets, 0), s).mode.Bare? <==> BareMark(s)
  {
    assert [s][..0] == [] && octets + Octets([]) == octets;
    if s != "" {
      assert s + "" == s;
      PieceRun(octets, s, "");
    }
  }

  /** A piece that is no octet, or one too many, refuses the text. */
  lemma BadPieceMeets(octets: seq<byte>, p: string, rest: string, ps: seq<string>)
    requires |octets| <= 3 && '.' !in p && rest != "" && rest[0] == '.' && ps != []
    requires !(IsOctet(p) && |octets| < 3)
    ensures Run(State(Start, octets, 0), p + rest).mode.Error?
    ensures ReferenceFrom(octets, [p] + ps) == Rejected && !EndsBare(|octets|, [p] + ps)
  {
    PieceRun(octets, p, rest);
    if |octets| < 3 { assert !IsOctet(([p] + ps)[0]); }
  }

  lemma OctetPieceRun(octets: seq<byte>, p: string, rest: string)
    requires |octets| < 3 && '.' !in p && rest != "" && rest[0] == '.' && IsOctet(p)
    ensures Run(State(Start, octets, 0), p + rest) == Run(State(Start, octets + [OctetValue(p)], 0), rest[1..])
  {
    PieceRun(octets, p, rest);
  }

  lemma {:induction false} RunMeetsReference(octets: seq<byte>, s: string)
    requires |octets| <= 3
    ensures Finish(Run(State(Start, octets, 0), s)) == ReferenceFrom(octets, Split(s))
    ensures Run(State(Start, octets, 0), s).mode.Bare? <==> EndsBare(|octets|, Split(s))
    decreases |s|
  {
    var i := IndexOf(s, '.');
    if i == |s| {
      assert s[..i] == s;
      LastPieceMeets(octets, s);
    } else {
      var p, rest := s[..i], s[i..];
      var ps := Split(s[i + 1..]);
      assert s == p + rest && rest[1..] == s[i + 1..];
      if IsOctet(p) && |octets| < 3 {
        OctetPieceRun(octets, p, rest);
        RunMeetsReference(octets + [OctetValue(p)], s[i + 1..]);
        AcceptableCons(octets, p, ps);
      } else {
        BadPieceMeets(octets, p, rest, ps);
      }
    }
  }

  lemma BareCons(before: nat, p: string, ps: seq<string>)
    requires IsOctet(p) && ps != []
    ensures EndsBare(before, [p] + ps) <==> EndsBare(before + 1, ps)
  {
    var all := [p] + ps;
    assert all[|ps|] == ps[|ps| - 1];
    if EndsBare(before, all) {
      forall i | 0 <= i < |ps| - 1 ensures IsOctet(ps[i]) { assert IsOctet(all[i + 1]); }
    }
  }

  lemma OctetsCons(p: string, ps: seq<string>)
    requires IsOctet(p) && forall i :: 0 <= i < |ps| ==> IsOctet(ps[i])
    ensures Octets([p] + ps) == [OctetValue(p)] + Octets(ps)
  {}

  lemma AcceptableCons(octets: seq<byte>, p: string, ps: seq<string>)
    requires IsOctet(p) && ps != []
    ensures ReferenceFrom(octets, [p] + ps) == ReferenceFrom(octets + [OctetValue(p)], ps)
    ensures EndsBare(|octets|, [p] + ps) <==> EndsBare(|octets| + 1, ps)
  {
    var all := [p] + ps;
    var n := |ps|;
    BareCons(|octets|, p, ps);
    assert all[n] == ps[n - 1];
    assert all[..n] == [p] + ps[..n - 1];
    assert Acceptable(|octets|, all) ==> Acceptable(|octets| + 1, ps) by {
      if Acceptable(|octets|, all) {
        forall i | 0 <= i < n - 1 ensures IsOctet(ps[i]) { assert IsOctet(all[i + 1]); }
      }
    }
    assert Acceptable(|octets| + 1, ps) ==> Acceptable(|octets|, all);
    if Acceptable(|octets|, all) {
      OctetsCons(p, ps[..n - 1]);
      assert octets + ([OctetValue(p)] + Octets(ps[..n - 1])) == octets + [OctetValue(p)] + Octets(ps[..n - 1]);
    }
  }

  /** On every text the parser agrees with the reference definition. */
  lemma ParserMeetsReference(s: string)
    ensures Parse(s) == Reference(s)
  {
    RunMeetsReference([], s);
  }

  /**
    The parser stays inside the buffer on exactly those texts that do not end in a bare hex mark
    after octets, unless something follows the terminator or the length limit ends before it.
   */
  lemma InsideExactly(value: string, length: nat)
    ensures var text := Visible(value, length);
            ReadsBehind(value, length) <==> EndsBare(0, Split(text)) && |text| + 1 == |value| < length
  {
    RunMeetsReference([], Visible(value, length));
  }

  // ----- what that gives for the notations and the printer -----

  predicate NoDot(p: string) {
    '.' !in p
  }

  lemma {:induction false} SplitJoin(ps: seq<string>)
    requires ps != [] && forall i :: 0 <= i < |ps| ==> NoDot(ps[i])
    ensures Split(Join(ps)) == ps
  {
    if |ps| == 1 {
      IndexOfConcat(ps[0], '.', "");
      assert ps[0] + "" == ps[0];
    } else {
      var rest := "." + Join(ps[1..]);
      assert Join(ps) == ps[0] + rest;
      IndexOfConcat(ps[0], '.', rest);
      SplitJoin(ps[1..]);
      assert Join(ps)[..|ps[0]|] == ps[0];
      assert Join(ps)[|ps[0]| + 1..] == Join(ps[1..]);
    }
  }

  lemma NumberHasNoDot(p: string)
    requires IsNumber(p, false)
    ensures NoDot(p)
  {
    forall i | 0 <= i < |p| ensures p[i] != '.' {
      if Marked(p) && i >= 2 { assert p[i] == p[2..][i - 2]; }
    }
  }

  /** Numbers joined by dots mean what the reference says of the list of numbers. */
  lemma ParseJoin(ps: seq<string>)
    requires ps != [] && forall i :: 0 <= i < |ps| ==> IsNumber(ps[i], false)
    ensures Parse(Join(ps)) == ReferenceFrom([], ps)
  {
    forall i | 0 <= i < |ps| ensures NoDot(ps[i]) { NumberHasNoDot(ps[i]); }
    SplitJoin(ps);
    ParserMeetsReference(Join(ps));
  }

  /** A lone number is the whole address as a big-endian number, taken modulo 2^32. */
  lemma LoneNumber(p: string)
    requires IsNumber(p, true)
    ensures Parse(p) == Parsed(FromUint32(NumberValue(p, true)))
    ensures |Parse(p).bytes| == 4 && Mask.Number(Parse(p).bytes) == NumberValue(p, true)
  {
    ParseJoin([p]);
    assert Join([p]) == p;
    assert [] + Octets([p][..0]) == [];
    FourBytes(FromUint32(NumberValue(p, true)));
  }

  lemma OctetsAre(ps: seq<string>, b: seq<byte>)
    requires |ps| == |b| && forall i :: 0 <= i < |ps| ==> IsOctet(ps[i]) && OctetValue(ps[i]) == b[i]
    ensures Octets(ps) == b
  {}

  lemma AssembleFour(b: seq<byte>)
    requires |b| == 4
    ensures Assemble(b[..3], b[3]) == b
  {
    assert b[..3] + [] + [b[3]] == b;
  }

  lemma LastIsOctet(p: string)
    requires IsNumber(p, true) && NumberValue(p, true) <= 0xff
    ensures IsOctet(p) && OctetValue(p) == NumberValue(p, true)
  {}

  /** Four octets, each in either base. */
  lemma FourOctets(ps: seq<string>, b: seq<byte>)
    requires |ps| == 4 == |b|
    requires forall i :: 0 <= i < 4 ==> IsNumber(ps[i], true) && NumberValue(ps[i], true) == b[i]
    ensures Parse(Join(ps)) == Parsed(b)
  {
    forall i | 0 <= i < 4 ensures IsOctet(ps[i]) && OctetValue(ps[i]) == b[i] { LastIsOctet(ps[i]); }
    ParseJoin(ps);
    OctetsAre(ps[..3], b[..3]);
    assert [] + b[..3] == b[..3];
    AssembleFour(b);
  }

  lemma DecimalUnmarked(w: string)
    requires AllDec(w)
    ensures !Marked(w)
  {
    assert |w| >= 2 ==> IsDec(w[1]);
  }

  /** Decimal text of any size wraps: "4294967297" is read as 0.0.0.1. */
  lemma LoneDecimal(w: string)
    requires w != "" && AllDec(w)
    ensures Parse(w) == Parsed(FromUint32(DecVal(w) % U32))
    ensures |Parse(w).bytes| == 4 && Mask.Number(Parse(w).bytes) == DecVal(w) % 0x1_0000_0000
  {
    DecimalUnmarked(w);
    LoneNumber(w);
  }

  /** The same for hex text behind a mark of either case. */
  lemma LoneMarked(w: string, mark: char)
    requires w != "" && AllHex(w) && (mark == 'x' || mark == 'X')
    ensures Parse("0" + [mark] + w) == Parsed(FromUint32(HexVal(w) % U32))
    ensures |Parse("0" + [mark] + w).bytes| == 4 && Mask.Number(Parse("0" + [mark] + w).bytes) == HexVal(w) % 0x1_0000_0000
  {
    var marked := "0" + [mark] + w;
    assert marked[2..] == w;
    LoneNumber(marked);
  }

  /** The text of one octet in either base. */
  lemma OctetText(p: string, v: byte)
    requires || (p != "" && AllDec(p) && DecVal(p) == v)
             || (|p| > 2 && p[0] == '0' && (p[1] == 'x' || p[1] == 'X') && AllHex(p[2..]) && HexVal(p[2..]) == v)
    ensures IsNumber(p, true) && NumberValue(p, true) == v
  {
    if p != "" && AllDec(p) { DecimalUnmarked(p); }
    SmallMod(v, U32);
  }

  /**
    Every notation of a 32-bit number gives the same address: its decimal text, its hex text, and its
    four octets, each in either base. Converting the address back gives the number.
   */
  lemma NotationsAgree(n: nat, dec: string, hex: string, mark: char, ps: seq<string>)
    requires n < 0x1_0000_0000
    requires dec != "" && AllDec(dec) && DecVal(dec) == n
    requires hex != "" && AllHex(hex) && HexVal(hex) == n && (mark == 'x' || mark == 'X')
    requires |ps| == 4 && forall i :: 0 <= i < 4 ==>
               var v := [n / 0x100_0000, n / 0x1_0000 % 0x100, n / 0x100 % 0x100, n % 0x100][i];
               || (ps[i] != "" && AllDec(ps[i]) && DecVal(ps[i]) == v)
               || (|ps[i]| > 2 && ps[i][0] == '0' && (ps[i][1] == 'x' || ps[i][1] == 'X')
                   && AllHex(ps[i][2..]) && HexVal(ps[i][2..]) == v)
    ensures var b := [n / 0x100_0000, n / 0x1_0000 % 0x100, n / 0x100 % 0x100, n % 0x100];
            && Parse(dec) == Parse("0" + [mark] + hex) == Parse(ps[0] + "." + ps[1] + "." + ps[2] + "." + ps[3]) == Parsed(b)
            && ToUint32(b) == n
  {
    var b: seq<byte> := FromUint32(n);
    LoneDecimal(dec);
    LoneMarked(hex, mark);
    SmallMod(n, U32);
    forall i | 0 <= i < 4 ensures IsNumber(ps[i], true) && NumberValue(ps[i], true) == b[i] { OctetText(ps[i], b[i]); }
    FourOctets(ps, b);
    JoinFour(ps);
    FromToUint32(n);
  }

  /**
    Two to four numbers. A last number above 255 is not refused: the text is accepted and the
    address is 0.0.0.0, so the last octet is the last number exactly when that number fits.
   */
  lemma DottedResult(ps: seq<string>)
    requires 2 <= |ps| <= 4 && Acceptable(0, ps)
    ensures Parse(Join(ps)).Parsed?
    ensures var last := NumberValue(ps[|ps| - 1], true);
            var b := Parse(Join(ps)).bytes;
            && |b| == 4
            && (b[3] == last <==> last <= 0xff)
            && (last > 0xff ==> b == ZERO)
            && (last <= 0xff ==> b[..|ps| - 1] == Octets(ps[..|ps| - 1]) && forall i :: |ps| - 1 <= i < 3 ==> b[i] == 0)
  {
    assert forall i :: 0 <= i < |ps| - 1 ==> IsOctet(ps[i]);
    ParseJoin(ps);
    assert [] + Octets(ps[..|ps| - 1]) == Octets(ps[..|ps| - 1]);
  }

  /** Pieces joined with dots. */
  lemma Joined(p: string, ps: seq<string>)
    ensures Join([p]) == p && (ps != [] ==> Join([p] + ps) == p + "." + Join(ps))
  {
    assert ([p] + ps)[1..] == ps;
  }

  /** Splitting at the dots loses nothing, and no dot is left in a piece. */
  lemma {:induction false} JoinSplit(s: string)
    ensures Join(Split(s)) == s && forall i :: 0 <= i < |Split(s)| ==> '.' !in Split(s)[i]
    decreases |s|
  {
    var i := IndexOf(s, '.');
    if i == |s| {
      assert s[..i] == s;
    } else {
      JoinSplit(s[i + 1..]);
      assert s == s[..i] + "." + s[i + 1..];
    }
  }

  /**
    What is accepted, in characters and numbers: one to four pieces between dots; each of them is
    decimal digits, or 0x or 0X and hex digits, of which the last piece has one at least; and all but
    the last are at most 255 in their low 32 bits.
   */
  lemma AcceptsExactly(s: string)
    ensures var ps := Split(s);
            Parse(s).Parsed? <==>
              && |ps| <= 4
              && forall i :: 0 <= i < |ps| ==>
                   var marked := |ps[i]| >= 2 && ps[i][0] == '0' && (ps[i][1] == 'x' || ps[i][1] == 'X');
                   && (if marked then AllHex(ps[i][2..]) else ps[i] != "" && AllDec(ps[i]))
                   && (if i == |ps| - 1 then marked ==> |ps[i]| > 2
                       else (if marked then HexVal(ps[i][2..]) else DecVal(ps[i])) % 0x1_0000_0000 <= 255)
  {
    var ps := Split(s);
    var n := |ps| - 1;
    ParserMeetsReference(s);
    if Acceptable(0, ps) {
      forall i | 0 <= i < n ensures IsOctet(ps[i]) {}
    }
    if |ps| <= 4 && IsNumber(ps[n], true) && forall i :: 0 <= i < n ==> IsNumber(ps[i], false) && NumberValue(ps[i], false) <= 255 {
      forall i | 0 <= i < n ensures IsOctet(ps[i]) { assert IsNumber(ps[i], false) && NumberValue(ps[i], false) <= 255; }
    }
  }

  /** The value of a number in characters: hex digits behind 0x or 0X, decimal digits otherwise, modulo 2^32. */
  lemma NumberIs(p: string, last: bool)
    requires IsNumber(p, last)
    ensures if |p| >= 2 && p[0] == '0' && (p[1] == 'x' || p[1] == 'X') then
              AllHex(p[2..]) && NumberValue(p, last) == HexVal(p[2..]) % 0x1_0000_0000
            else AllDec(p) && NumberValue(p, last) == DecVal(p) % 0x1_0000_0000
  {}

  /**
    What an accepted text means: a lone number is the whole big-endian address; of two numbers or
    more the last is the last octet and the others are the first octets, with zeros in between; but
    a last number above 255 makes the address 0.0.0.0.
   */
  lemma AcceptedBytes(s: string)
    requires Parse(s).Parsed?
    ensures var ps, b := Split(s), Parse(s).bytes;
            var n := |ps| - 1;
            && n <= 3 && |b| == 4 && (forall i :: 0 <= i <= n ==> IsNumber(ps[i], i == n))
            && var last := NumberValue(ps[n], true);
               if n == 0 then Mask.Number(b) == last
               else if last > 255 then b == [0, 0, 0, 0]
               else b[3] == last && forall i :: 0 <= i < 3 ==> b[i] == if i < n then NumberValue(ps[i], false) else 0
  {
    var ps, b := Split(s), Parse(s).bytes;
    var n := |ps| - 1;
    ParserMeetsReference(s);
    FourBytes(b);
    assert Octets(ps[..n]) == [] + Octets(ps[..n]);
    forall i | 0 <= i < n ensures IsOctet(ps[i]) && Octets(ps[..n])[i] == NumberValue(ps[i], false) {
      assert ps[..n][i] == ps[i];
    }
    if n > 0 { AssembleBytes(Octets(ps[..n]), NumberValue(ps[n], true)); }
  }

  lemma AssembleBytes(octets: seq<byte>, last: nat)
    requires 1 <= |octets| <= 3 && last < U32
    ensures var b := Assemble(octets, last);
            if last > 255 then b == [0, 0, 0, 0]
            else b[3] == last && forall i :: 0 <= i < 3 ==> b[i] == if i < |octets| then octets[i] else 0
  {}

  lemma NumeralIsNumber(n: nat)
    requires n < U32
    ensures IsNumber(Numeral(10, n), true) && NumberValue(Numeral(10, n), true) == n
  {
    var w := Numeral(10, n);
    NumeralValue(10, n);
    DecimalUnmarked(w);
    SmallMod(n, U32);
  }

  /** Printing and parsing an IPv4 address. */
  lemma RoundTrip(b: seq<byte>)
    requires |b| == 4
    ensures Parse(ToStr(b)) == Parsed(b)
    ensures ToStr(b) == Numeral(10, b[0]) + "." + Numeral(10, b[1]) + "." + Numeral(10, b[2]) + "." + Numeral(10, b[3])
    ensures |ToStr(b)| <= 15
    ensures forall i :: 0 <= i < |ToStr(b)| ==> IsDec(ToStr(b)[i]) || ToStr(b)[i] == '.'
  {
    var ps := [Numeral(10, b[0]), Numeral(10, b[1]), Numeral(10, b[2]), Numeral(10, b[3])];
    forall i | 0 <= i < 4 ensures IsNumber(ps[i], true) && NumberValue(ps[i], true) == b[i] && |ps[i]| <= 3 {
      NumeralIsNumber(b[i]);
      NumeralLengths(b[i]);
    }
    FourOctets(ps, b);
    JoinFour(ps);
    assert ToStr(b) == Join(ps);
  }

  lemma JoinFour(ps: seq<string>)
    requires |ps| == 4
    ensures Join(ps) == ps[0] + "." + ps[1] + "." + ps[2] + "." + ps[3]
  {
    assert ps[1..][1..] == ps[2..] && ps[2..][1..] == ps[3..];
    assert Join(ps[3..]) == ps[3];
    assert Join(ps[2..]) == ps[2] + "." + ps[3];
    assert Join(ps[1..]) == ps[1] + "." + (ps[2] + "." + ps[3]);
    assert Join(ps) == ps[0] + "." + (ps[1] + "." + (ps[2] + "." + ps[3]));
  }
}
