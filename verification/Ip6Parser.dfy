/** The IPv6 text parser: a one-pass automaton over groups, one gap and a dotted tail. */
module Ip6Parser {
  import opened Text

  datatype Mode = Start | Proc | Error

  /**
    `hex` are the groups completed so far, `dec` the octets completed so far, `separator` the
    number of groups before "::", and the two accumulators read the current digits in both bases.
   */
  datatype State = State(mode: Mode, hex: seq<word>, dec: seq<byte>, separator: int, accHex: nat, accDec: nat)

  const UNSET: int := -1
  const INITIAL := State(Start, [], [], UNSET, 0, 0)

  /** The index and accumulator bounds that hold in the loop. */
  predicate Bounded(st: State) {
    && |st.hex| <= 7 && |st.dec| <= 3
    && UNSET <= st.separator <= |st.hex|
    && st.accHex < U32 && st.accDec < U32
  }

  function Fail(st: State): State {
    st.(mode := Error)
  }

  function Push(st: State): State
    requires st.accHex <= 0xffff
  {
    st.(hex := st.hex + [st.accHex], accHex := 0, accDec := 0)
  }

  predicate CanPush(st: State) {
    st.dec == [] && st.accHex <= 0xffff && |st.hex| < 7
  }

  function OnGap(st: State): State {
    if st.separator == UNSET && CanPush(st) then
      var p := if st.mode.Proc? then Push(st) else st;
      p.(separator := |p.hex|)
    else Fail(st)
  }

  function OnColon(st: State): State {
    if st.mode.Proc? && CanPush(st) then Push(st) else Fail(st)
  }

  function OnDot(st: State): State {
    if st.mode.Proc? && st.accDec <= 0xff && |st.dec| < 3 then
      st.(dec := st.dec + [st.accDec], accHex := 0, accDec := 0)
    else Fail(st)
  }

  function OnDigit(st: State, d: nat): State {
    st.(mode := Proc, accHex := (st.accHex * 16 + d) % U32, accDec := (st.accDec * 10 + d) % U32)
  }

  predicate Gap(s: string) {
    |s| >= 2 && s[0] == ':' && s[1] == ':'
  }

  function Width(s: string): nat {
    if Gap(s) then 2 else 1
  }

  function Step(st: State, s: string): State
    requires s != ""
  {
    if Gap(s) then OnGap(st)
    else if s[0] == ':' then OnColon(st)
    else if s[0] == '.' then OnDot(st)
    else if IsHex(s[0]) then OnDigit(st, Digit(s[0]))
    else Fail(st)
  }

  function Run(st: State, s: string): State
    decreases |s|
  {
    if s == "" || st.mode.Error? then st else Run(Step(st, s), s[Width(s)..])
  }

  /** Every step keeps the bounds, so every run does. */
  lemma {:induction false} RunBounded(st: State, s: string)
    requires Bounded(st)
    ensures Bounded(Run(st, s))
    decreases |s|
  {
    if s != "" && !st.mode.Error? {
      RunBounded(Step(st, s), s[Width(s)..]);
    }
  }

  // ----- from the final state to the address -----

  predicate Refused(st: State) {
    || st.mode.Error?
    || (st.mode.Start? && st.separator == UNSET)
    || (st.dec != [] && |st.dec| != 3)
    || (st.dec == [] && st.accHex > 0xffff)
    || (|st.dec| == 3 && st.accDec > 0xff)
  }

  function Quad(d: seq<byte>): (r: seq<word>)
    requires |d| == 4
    ensures |r| == 2
  {
    [d[0] as int * 0x100 + d[1] as int, d[2] as int * 0x100 + d[3] as int]
  }

  /** The groups written after the last completed one. */
  function LastGroups(st: State): (r: seq<word>)
    requires !Refused(st)
  {
    if |st.dec| == 3 then
      (if st.hex == [] then [0xffff] else []) + Quad(st.dec + [st.accDec])
    else [st.accHex]
  }

  function Zeros(n: nat): (r: seq<word>)
    ensures |r| == n
    ensures forall i :: 0 <= i < n ==> r[i] == 0
  {
    seq(n, _ => 0)
  }

  /** The groups before the separator, then zeros up to eight groups in all, then the rest. */
  function Spread(all: seq<word>, separator: nat): (r: seq<word>)
    requires separator <= |all| <= 8
    ensures |r| == 8
  {
    all[..separator] + Zeros(8 - |all|) + all[separator..]
  }

  /** Groups as big-endian byte pairs. */
  function Bytes(groups: seq<word>): (b: seq<byte>)
    ensures |b| == 2 * |groups|
  {
    if groups == [] then [] else [groups[0] / 0x100, groups[0] % 0x100] + Bytes(groups[1..])
  }

  function Groups(b: seq<byte>): (g: seq<word>)
    requires |b| % 2 == 0
    ensures |g| == |b| / 2
  {
    if b == [] then [] else [b[0] as int * 0x100 + b[1] as int] + Groups(b[2..])
  }

  lemma {:induction false} BytesAt(groups: seq<word>, i: nat)
    requires i < |groups|
    ensures Bytes(groups)[2 * i] == groups[i] / 0x100 && Bytes(groups)[2 * i + 1] == groups[i] % 0x100
  {
    if i > 0 { BytesAt(groups[1..], i - 1); }
  }

  lemma {:induction false} GroupsAt(b: seq<byte>, i: nat)
    requires |b| % 2 == 0 && i < |b| / 2
    ensures Groups(b)[i] == b[2 * i] as int * 0x100 + b[2 * i + 1] as int
  {
    if i > 0 { GroupsAt(b[2..], i - 1); }
  }

  lemma {:induction false} BytesOfGroups(b: seq<byte>)
    requires |b| % 2 == 0
    ensures Bytes(Groups(b)) == b
  {
    if b != [] {
      BytesOfGroups(b[2..]);
      assert b == [b[0], b[1]] + b[2..];
    }
  }

  lemma {:induction false} GroupsOfBytes(g: seq<word>)
    ensures Groups(Bytes(g)) == g
  {
    if g != [] {
      GroupsOfBytes(g[1..]);
      assert Bytes(g)[2..] == Bytes(g[1..]);
    }
  }

  /** Splitting bytes into groups and joining groups to bytes are inverse bijections. */
  lemma GroupBijection(b: seq<byte>, g: seq<word>)
    requires |b| % 2 == 0
    ensures Bytes(Groups(b)) == b
    ensures Groups(Bytes(g)) == g
    ensures Bytes(g) == b <==> Groups(b) == g
  {
    BytesOfGroups(b);
    GroupsOfBytes(g);
  }

  function Separator(st: State): int {
    if st.separator == UNSET then 0 else st.separator
  }

  function Finish(st: State): Outcome
    requires Bounded(st)
  {
    if Refused(st) then Rejected
    else if |st.hex| + |LastGroups(st)| > 8 then Overrun
    else Parsed(Bytes(Spread(st.hex + LastGroups(st), Separator(st))))
  }

  function Parse(s: string): Outcome {
    RunBounded(INITIAL, s);
    Finish(Run(INITIAL, s))
  }

  // ----- the parser as the source writes it -----

  const UNSPECIFIED: seq<byte> := [0, 0, 0, 0, 0, 0, 0, 0, 0, 0, 0, 0, 0, 0, 0, 0]

  /** The local variables of one call, with one method for each branch of the loop. */
  class Scan {
    var state: Mode
    const resultHex: array<word>
    const resultDec: array<byte>
    var indexHex: nat
    var indexDec: nat
    var separator: int
    var accumHex: nat
    var accumDec: nat
    var sym: nat

    ghost predicate Valid()
      reads this
    {
      && resultHex.Length == 8 && resultDec.Length == 3
      && indexHex <= 8 && indexDec <= 3 && UNSET <= separator && sym < 16
    }

    ghost function Now(): State
      requires Valid()
      reads this, resultHex, resultDec
    {
      State(state, resultHex[..indexHex], resultDec[..indexDec], separator, accumHex, accumDec)
    }

    constructor ()
      ensures Valid() && Now() == INITIAL && fresh(resultHex) && fresh(resultDec)
    {
      state := Start;
      resultHex := new word[8](_ => 0);
      resultDec := new byte[3](_ => 0);
      indexHex, indexDec, separator, accumHex, accumDec, sym := 0, 0, UNSET, 0, 0, 0;
    }

    /** "::" */
    method TakeGap()
      requires Valid() && Bounded(Now())
      modifies this, resultHex
      ensures Valid() && Now() == OnGap(old(Now()))
    {
      if separator == UNSET && indexDec == 0 && accumHex <= 0xffff && indexHex < 7 {
        if state == Proc {
          resultHex[indexHex] := accumHex;
          indexHex := indexHex + 1;
          accumHex, accumDec := 0, 0;
        }
        separator := indexHex;
      } else {
        state := Error;
      }
    }

    /** ":" */
    method TakeColon()
      requires Valid() && Bounded(Now())
      modifies this, resultHex
      ensures Valid() && Now() == OnColon(old(Now()))
    {
      if state == Proc && indexDec == 0 && accumHex <= 0xffff && indexHex < 7 {
        resultHex[indexHex] := accumHex;
        indexHex := indexHex + 1;
        accumHex, accumDec := 0, 0;
      } else {
        state := Error;
      }
    }

    /** "." */
    method TakeDot()
      requires Valid() && Bounded(Now())
      modifies this, resultDec
      ensures Valid() && Now() == OnDot(old(Now()))
    {
      if state == Proc && accumDec <= 0xff && indexDec <= 6 && indexDec < 3 {
        resultDec[indexDec] := accumDec;
        indexDec := indexDec + 1;
        accumHex, accumDec := 0, 0;
      } else {
        state := Error;
      }
    }

    /** Anything else: a digit in either base, or the end of the scan. */
    method TakeOther(c: char)
      requires Valid() && Bounded(Now()) && state != Error
      modifies this
      ensures Valid() && Bounded(Now())
      ensures if IsHex(c) then Now() == OnDigit(old(Now()), Digit(c)) else state == Error
    {
      if IsHex(c) {
        sym := Digit(c);
      } else {
        state := Error;
      }
      accumHex := (accumHex * 16 + sym) % U32;
      accumDec := (accumDec * 10 + sym) % U32;
      if state != Error {
        state := Proc;
      }
    }

    /** One turn of the loop; `width` counts the characters it used. */
    method Turn(value: string, pos: nat, remaining: nat, ghost rest: string) returns (width: nat)
      requires Valid() && Bounded(Now()) && state != Error
      requires pos < |value| && rest != "" && rest[0] == value[pos]
      requires remaining >= 1 ==> pos + 1 < |value|
      requires Gap(rest) == (remaining >= 1 && value[pos] == ':' && value[pos + 1] == ':')
      modifies this, resultHex, resultDec
      ensures Valid() && Bounded(Now())
      ensures width == if state == Error then 1 else Width(rest)
      ensures if state == Error then Step(old(Now()), rest).mode.Error? else Now() == Step(old(Now()), rest)
    {
      width := 1;
      if remaining >= 1 && value[pos] == ':' && value[pos + 1] == ':' {
        TakeGap();
        if state != Error {
          width := 2;
        }
      } else if value[pos] == ':' {
        TakeColon();
      } else if value[pos] == '.' {
        TakeDot();
      } else {
        TakeOther(value[pos]);
      }
    }

    /** Appends the last groups to the completed ones, and stops at a write past the array. */
    method AppendLast() returns (inside: bool)
      requires Valid() && Bounded(Now()) && !Refused(Now())
      modifies this, resultHex
      ensures Valid() && separator == old(separator)
      ensures inside <==> old(|Now().hex| + |LastGroups(Now())| <= 8)
      ensures inside ==> resultHex[..indexHex] == old(Now().hex + LastGroups(Now()))
    {
      if indexDec == 3 {
        if indexHex == 0 {
          resultHex[indexHex] := 0xffff;
          indexHex := indexHex + 1;
        }
        resultHex[indexHex] := resultDec[0] as int * 0x100 + resultDec[1] as int;
        indexHex := indexHex + 1;
        if indexHex == resultHex.Length {
          return false;
        }
        resultHex[indexHex] := resultDec[2] as int * 0x100 + accumDec;
        indexHex := indexHex + 1;
      } else {
        resultHex[indexHex] := accumHex;
        indexHex := indexHex + 1;
      }
      return true;
    }

    /** The checks after the loop; `old(Now())` is the state it ends in. */
    method Complete() returns (success: bool, inside: bool)
      requires Valid() && Bounded(Now())
      modifies this, resultHex
      ensures Valid() && separator == old(separator)
      ensures inside <==> old(Finish(Now())) != Overrun
      ensures inside ==> success == !Refused(old(Now()))
      ensures inside && success ==> resultHex[..indexHex] == old(Now().hex + LastGroups(Now()))
    {
      if (state == Start && separator == UNSET) || (indexDec != 0 && indexDec != 3)
         || (indexDec == 0 && accumHex > 0xffff) || (indexDec == 3 && accumDec > 0xff) {
        state := Error;
      }
      if state == Error {
        return false, true;
      }
      inside := AppendLast();
      success := inside;
    }
  }

  /**
    The buffer is `value`, which is terminated or at least `length` characters long; then every read
    stays inside it. `inside` tells whether the writes stay in the group array: they do not with
    seven groups before a dotted tail, and the parser stops there.
   */
  method FromStr(self: array<byte>, value: string, length: nat) returns (success: bool, inside: bool)
    requires self.Length == 16 && Readable(value, length)
    modifies self
    ensures inside <==> Parse(Visible(value, length)) != Overrun
    ensures inside ==> success == Parse(Visible(value, length)).Parsed?
    ensures inside ==> self[..] == if success then Parse(Visible(value, length)).bytes else UNSPECIFIED
  {
    ghost var text := Visible(value, length);
    ghost var left := text;
    var scan := new Scan();
    var pos, remaining := 0, length;
    assert |text| == |value| ==> text == value && length <= |value|;

    while remaining > 0 && value[pos] != NUL && scan.state != Error
      invariant fresh(scan) && fresh(scan.resultHex) && fresh(scan.resultDec)
      invariant scan.Valid() && Bounded(scan.Now())
      invariant pos <= |text| && remaining == length - pos && (remaining > 0 ==> pos < |value|)
      invariant scan.state != Error ==> left == text[pos..]
      invariant scan.state != Error ==> Run(scan.Now(), left) == Run(INITIAL, text)
      invariant scan.state == Error ==> Run(INITIAL, text).mode.Error?
      modifies scan, scan.resultHex, scan.resultDec
      decreases remaining
    {
      ghost var st, rest := scan.Now(), left;
      remaining := remaining - 1;
      assert rest[0] == value[pos];
      var width := scan.Turn(value, pos, remaining, rest);
      pos := pos + width;
      remaining := remaining - (width - 1);
      left := rest[Width(rest)..];
      assert Run(st, rest) == Run(Step(st, rest), left);
    }

    RunBounded(INITIAL, text);
    success, inside := Deliver(self, scan);
  }

  /** The checks after the loop and the writes to the address. */
  method Deliver(self: array<byte>, scan: Scan) returns (success: bool, inside: bool)
    requires self.Length == 16 && self != scan.resultDec
    requires scan.Valid() && Bounded(scan.Now())
    modifies self, scan, scan.resultHex
    ensures inside <==> old(Finish(scan.Now())) != Overrun
    ensures inside ==> success == old(Finish(scan.Now())).Parsed?
    ensures inside ==> self[..] == if success then old(Finish(scan.Now())).bytes else UNSPECIFIED
  {
    success, inside := scan.Complete();
    if inside && success {
      Copy(self, scan.resultHex, scan.indexHex, if scan.separator == UNSET then 0 else scan.separator);
    } else if inside {
      forall i | 0 <= i < 16 { self[i] := 0; }
      assert self[..] == UNSPECIFIED;
    }
  }

  lemma {:induction false} BytesAppend(g: seq<word>, x: word)
    ensures Bytes(g + [x]) == Bytes(g) + [x / 0x100, x % 0x100]
  {
    if g != [] {
      BytesAppend(g[1..], x);
      assert (g + [x])[1..] == g[1..] + [x];
    }
  }

  /** The groups that the copy loops write: `target` is the address, `all` the groups of the text. */
  ghost predicate Source(target: seq<word>, all: seq<word>, separator: nat) {
    && separator <= |all| <= 8 == |target|
    && (forall i :: 0 <= i < separator ==> target[i] == all[i])
    && (forall i :: separator <= i < separator + (8 - |all|) ==> target[i] == 0)
    && (forall i :: separator + (8 - |all|) <= i < 8 ==> target[i] == all[i - (8 - |all|)])
  }

  /** Where each group of the address comes from. */
  lemma SpreadIsSource(all: seq<word>, separator: nat)
    requires separator <= |all| <= 8
    ensures Source(Spread(all, separator), all, separator)
  {}

  /** One 16-bit store in network order. */
  method PutGroup(self: array<byte>, current: nat, group: word, ghost target: seq<word>)
    requires self.Length == 16 && current < 8 == |target| && group == target[current]
    requires self[..2 * current] == Bytes(target[..current])
    modifies self
    ensures self[..2 * (current + 1)] == Bytes(target[..current + 1])
  {
    self[2 * current], self[2 * current + 1] := group / 0x100, group % 0x100;
    BytesAppend(target[..current], group);
    assert target[..current + 1] == target[..current] + [group];
    assert self[..2 * (current + 1)] == self[..2 * current] + [group / 0x100, group % 0x100];
  }

  /** The groups before the separator. */
  method CopyHead(self: array<byte>, resultHex: array<word>, separator: nat, ghost all: seq<word>, ghost target: seq<word>)
    requires self.Length == 16 && resultHex.Length == 8
    requires Source(target, all, separator) && all == resultHex[..|all|]
    modifies self
    ensures self[..2 * separator] == Bytes(target[..separator])
  {
    var current := 0;
    while current < separator
      invariant current <= separator && self[..2 * current] == Bytes(target[..current])
      modifies self
    {
      assert target[current] == all[current] == resultHex[current];
      PutGroup(self, current, resultHex[current], target);
      current := current + 1;
    }
  }

  /** The zeros in place of the separator. */
  method FillGap(self: array<byte>, indexHex: nat, separator: nat, ghost all: seq<word>, ghost target: seq<word>)
    requires self.Length == 16 && Source(target, all, separator) && |all| == indexHex
    requires self[..2 * separator] == Bytes(target[..separator])
    modifies self
    ensures var to := separator + (8 - indexHex); self[..2 * to] == Bytes(target[..to])
  {
    var current := separator;
    while current < separator + (8 - indexHex)
      invariant separator <= current <= separator + (8 - indexHex)
      invariant self[..2 * current] == Bytes(target[..current])
      modifies self
    {
      assert target[current] == 0;
      PutGroup(self, current, 0, target);
      current := current + 1;
    }
  }

  /** The groups after the separator. */
  method CopyTail(self: array<byte>, resultHex: array<word>, indexHex: nat, separator: nat,
                  ghost all: seq<word>, ghost target: seq<word>)
    requires self.Length == 16 && resultHex.Length == 8
    requires Source(target, all, separator) && |all| == indexHex && all == resultHex[..|all|]
    requires var from := separator + (8 - indexHex); self[..2 * from] == Bytes(target[..from])
    modifies self
    ensures self[..16] == Bytes(target[..8])
  {
    var current := separator + (8 - indexHex);
    while current < 8
      invariant separator + (8 - indexHex) <= current <= 8
      invariant self[..2 * current] == Bytes(target[..current])
      modifies self
    {
      var from := current - (8 - indexHex);
      assert target[current] == all[from] == resultHex[from];
      PutGroup(self, current, resultHex[from], target);
      current := current + 1;
    }
  }

  /** The three copy loops: each of the eight groups is written once, in order. */
  method Copy(self: array<byte>, resultHex: array<word>, indexHex: nat, separator: nat)
    requires self.Length == 16 && resultHex.Length == 8
    requires separator <= indexHex <= 8
    modifies self
    ensures self[..] == Bytes(Spread(resultHex[..indexHex], separator))
  {
    ghost var all := resultHex[..indexHex];
    ghost var target := Spread(all, separator);
    SpreadIsSource(all, separator);
    CopyHead(self, resultHex, separator, all, target);
    FillGap(self, indexHex, separator, all, target);
    CopyTail(self, resultHex, indexHex, separator, all, target);
    assert self[..] == self[..16] && target[..8] == target;
  }
}
