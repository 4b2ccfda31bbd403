/** CIDR text and the prefix object: parsing, printing, bit updates, containment on copies. */
module Cidr {
  import opened Text
  import Bits
  import Mask
  import Prefix
  import Ip4
  import Ip6Parser
  import Ip6Printer
  import Ip6RoundTrip

  type Net = Prefix.Net

  /** `Undefined` stands for an IPv6 text on which the address parser leaves its bounds. */
  datatype CidrOutcome = Cidr(net: Net) | Refused | Undefined

  predicate Width(n: nat) {
    n == 4 || n == 16
  }

  function ParseIp(n: nat, s: string): Outcome {
    if n == 4 then Ip4.Parse(s) else Ip6Parser.Parse(s)
  }

  function IpText(b: seq<byte>): string
    requires Width(|b|)
  {
    if |b| == 4 then Ip4.ToStr(b) else Ip6RoundTrip.ToText(b, true, false)
  }

  function ParseHost(n: nat, s: string): CidrOutcome {
    match ParseIp(n, s)
    case Parsed(b) => Cidr(Prefix.Net(8 * n, b))
    case Rejected => Refused
    case Overrun => Undefined
  }

  function ParseLength(b: seq<byte>, s: string): CidrOutcome {
    var digits := s[..LeadingDigits(s)];
    var accum := Accumulate(U32, 10, 0, digits);
    if digits == "" || accum > 8 * |b| then Refused else Cidr(Prefix.Net(accum, Mask.Masked(b, accum)))
  }

  /** An address, and after the first slash a length; without a slash, all bits count. */
  function Parse(n: nat, s: string): CidrOutcome {
    var i := IndexOf(s, '/');
    if i == |s| then ParseHost(n, s)
    else
      match ParseIp(n, s[..i])
      case Parsed(b) => ParseLength(b, s[i + 1..])
      case Rejected => Refused
      case Overrun => Undefined
  }

  function ToText(p: Net): string
    requires Width(|p.ip|)
  {
    IpText(p.ip) + "/" + Numeral(10, p.length)
  }

  // ----- the round trip -----

  lemma IpTextRoundTrip(b: seq<byte>)
    requires Width(|b|)
    ensures ParseIp(|b|, IpText(b)) == Parsed(b)
    ensures |IpText(b)| <= 45 && (|b| == 4 ==> |IpText(b)| <= 15)
    ensures '/' !in IpText(b) && NUL !in IpText(b)
  {
    if |b| == 4 {
      Ip4.RoundTrip(b);
      assert forall i :: 0 <= i < |Ip4.ToStr(b)| ==> Ip4.ToStr(b)[i] != '/';
    } else {
      Ip6RoundTrip.RoundTrip(b, true, false);
      Ip6RoundTrip.TextFits(b, true, false, '/');
      Ip6RoundTrip.TextFits(b, true, false, NUL);
    }
  }

  lemma LengthRoundTrip(b: seq<byte>, length: nat)
    requires length <= 8 * |b| && Width(|b|)
    ensures ParseLength(b, Numeral(10, length)) == Cidr(Prefix.Net(length, Mask.Masked(b, length)))
    ensures |Numeral(10, length)| <= 3 && NUL !in Numeral(10, length)
  {
    var w := Numeral(10, length);
    LeadingDigitsConcat(w, "");
    assert w + "" == w && w[..|w|] == w;
    NumeralValue(10, length);
    AccumulateFits(U32, 10, w);
    NumeralLengths(length);
  }

  /**
    A length is judged modulo 2^32 and anything after its digits is ignored: "/4294967320" is read
    as "/24", and a length past the width is refused exactly when its low 32 bits are.
   */
  lemma LengthModulo(b: seq<byte>, w: string, junk: string)
    requires w != "" && AllDec(w) && (junk == "" || !IsDec(junk[0]))
    ensures var v := DecVal(w) % U32;
            ParseLength(b, w + junk) == if v <= 8 * |b| then Cidr(Prefix.Net(v, Mask.Masked(b, v))) else Refused
  {
    LeadingDigitsConcat(w, junk);
    assert (w + junk)[..|w|] == w;
    AccumulateIsFoldMod(U32, 10, 0, w);
  }

  /** Parsing the printed text gives the prefix with its host bits cleared. */
  lemma RoundTrip(p: Net)
    requires Width(|p.ip|) && Prefix.Fits(p)
    ensures Parse(|p.ip|, ToText(p)) == Cidr(Prefix.Net(p.length, Mask.Masked(p.ip, p.length)))
    ensures Parse(|p.ip|, ToText(p)) == Cidr(p) <==> Prefix.Clean(p)
    ensures |ToText(p)| <= 49 && NUL !in ToText(p)
  {
    var t, w := IpText(p.ip), Numeral(10, p.length);
    IpTextRoundTrip(p.ip);
    LengthRoundTrip(p.ip, p.length);
    var s := ToText(p);
    assert s == t + ("/" + w);
    IndexOfConcat(t, '/', "/" + w);
    assert s[..|t|] == t && s[|t| + 1..] == w;
    Mask.HostBitsZeroIsFixpoint(p.ip, p.length);
  }

  // ----- what is accepted -----

  /** Every text with a slash splits at the first one, and what follows at the first character that is no digit. */
  lemma Decomposed(s: string) returns (t: string, w: string, junk: string)
    requires '/' in s
    ensures s == t + "/" + (w + junk) && '/' !in t
    ensures (forall k :: 0 <= k < |w| ==> '0' <= w[k] <= '9') && (junk != "" ==> !('0' <= junk[0] <= '9'))
  {
    var k :| 0 <= k < |s| && s[k] == '/';
    var i := IndexOf(s, '/');
    assert i <= k;
    var rest := s[i + 1..];
    t, w, junk := s[..i], rest[..LeadingDigits(rest)], rest[LeadingDigits(rest)..];
    assert forall k :: 0 <= k < |w| ==> IsDec(w[k]);
    Rejoin(rest, |w|);
    RejoinAt(s, i);
  }

  lemma Rejoin(s: string, i: nat)
    requires i <= |s|
    ensures s[..i] + s[i..] == s
  {}

  lemma RejoinAt(s: string, i: nat)
    requires i < |s|
    ensures s[..i] + [s[i]] + s[i + 1..] == s
  {}

  lemma AtSlash(t: string, rest: string)
    requires '/' !in t
    ensures var s := t + "/" + rest;
            '/' in s && IndexOf(s, '/') == |t| < |s| && s[..|t|] == t && s[|t| + 1..] == rest
  {
    var s := t + "/" + rest;
    assert s == t + ("/" + rest) && s[|t|] == '/';
    IndexOfConcat(t, '/', "/" + rest);
  }

  /**
    What is accepted. A text without a slash has to be an address, and is that address with all its
    bits. With a slash, the text in front of the first one has to be an address and at least one digit
    has to follow; what comes after the digits is ignored. The length is the number that they write,
    modulo 2^32, and has to fit the address, which is cleared from there on.
   */
  lemma AcceptsExactly(n: nat, s: string, t: string, w: string, junk: string)
    requires n == 4 || n == 16
    requires s == (if '/' !in s then t else t + "/" + (w + junk)) && '/' !in t
    requires (forall k :: 0 <= k < |w| ==> '0' <= w[k] <= '9') && (junk != "" ==> !('0' <= junk[0] <= '9'))
    ensures var ip := if n == 4 then Ip4.Parse(t) else Ip6Parser.Parse(t);
            var r := Parse(n, s);
            && (r.Cidr? <==> ip.Parsed? && ('/' in s ==> w != "" && DecVal(w) % 0x1_0000_0000 <= 8 * n))
            && (r.Cidr? && '/' !in s ==> r.net.length == 8 * n && r.net.ip == ip.bytes)
            && (r.Cidr? && '/' in s ==>
                  && r.net.length == DecVal(w) % 0x1_0000_0000 && |r.net.ip| == n
                  && Mask.Number(r.net.ip)
                     == Mask.Number(ip.bytes) - Mask.Number(ip.bytes) % Bits.Pow2(8 * n - r.net.length))
  {
    if '/' in s {
      WithSlash(n, s, t, w, junk);
    } else {
      assert forall k :: 0 <= k < |s| ==> s[k] in s;
    }
  }

  lemma WithSlash(n: nat, s: string, t: string, w: string, junk: string)
    requires Width(n) && s == t + "/" + (w + junk) && '/' !in t && AllDec(w) && (junk == "" || !IsDec(junk[0]))
    ensures var ip := ParseIp(n, t);
            var r := Parse(n, s);
            && (r.Cidr? <==> ip.Parsed? && w != "" && DecVal(w) % U32 <= 8 * n)
            && (r.Cidr? ==>
                  && r.net.length == DecVal(w) % U32 && |r.net.ip| == n
                  && Mask.Number(r.net.ip)
                     == Mask.Number(ip.bytes) - Mask.Number(ip.bytes) % Bits.Pow2(8 * n - r.net.length))
  {
    AtSlash(t, w + junk);
    if ParseIp(n, t).Parsed? {
      ParsedWidth(n, t);
      LengthExactly(ParseIp(n, t).bytes, w, junk);
    }
  }

  lemma LengthExactly(b: seq<byte>, w: string, junk: string)
    requires Width(|b|) && AllDec(w) && (junk == "" || !IsDec(junk[0]))
    ensures var r := ParseLength(b, w + junk);
            && (r.Cidr? <==> w != "" && DecVal(w) % U32 <= 8 * |b|)
            && (r.Cidr? ==>
                  && r.net.length == DecVal(w) % U32 && |r.net.ip| == |b|
                  && Mask.Number(r.net.ip) == Mask.Number(b) - Mask.Number(b) % Bits.Pow2(8 * |b| - r.net.length))
  {
    LeadingDigitsConcat(w, junk);
    assert (w + junk)[..|w|] == w;
    if w != "" {
      LengthModulo(b, w, junk);
      if DecVal(w) % U32 <= 8 * |b| { Mask.MaskedNumber(b, DecVal(w) % U32); }
    }
  }

  /** The printed text: the address as it prints by default, a slash, and the length in base 10. */
  lemma Printed(p: Net, t: string, w: string)
    requires (|p.ip| == 4 || |p.ip| == 16) && '/' !in t && ToText(p) == t + "/" + w
    ensures t == if |p.ip| == 4 then Ip4.ToStr(p.ip) else Ip6RoundTrip.ToText(p.ip, true, false)
    ensures w == Numeral(10, p.length)
  {
    IpTextRoundTrip(p.ip);
    AtSlash(IpText(p.ip), Numeral(10, p.length));
    AtSlash(t, w);
  }

  // ----- histories from every constructor -----

  /** The constructors: empty, all bits of an address, an address and a length, a parsed text. */
  datatype Start =
    | FromNothing(n: nat)
    | FromIp(ip: seq<byte>)
    | FromIpAndLength(address: seq<byte>, length: nat)
    | FromText(width: nat, text: string)

  predicate Constructs(s: Start) {
    match s
    case FromNothing(n) => Width(n)
    case FromIp(ip) => Width(|ip|)
    case FromIpAndLength(ip, length) => Width(|ip|) && length <= 8 * |ip|
    case FromText(n, text) => Width(n) && Parse(n, text) != Undefined
  }

  /** What is constructed; a refused text gives the empty prefix. */
  function Constructed(s: Start): (p: Net)
    requires Constructs(s)
  {
    match s
    case FromNothing(n) => Prefix.Net(0, seq(n, _ => 0))
    case FromIp(ip) => Prefix.Net(8 * |ip|, ip)
    case FromIpAndLength(ip, length) => Prefix.Net(length, Mask.Masked(ip, length))
    case FromText(n, text) => var r := Parse(n, text); if r.Cidr? then r.net else Prefix.Net(0, seq(n, _ => 0))
  }

  lemma ParsedWidth(n: nat, s: string)
    requires Width(n) && ParseIp(n, s).Parsed?
    ensures |ParseIp(n, s).bytes| == n
  {
    if n == 16 { Ip6Parser.RunBounded(Ip6Parser.INITIAL, s); }
  }

  /** Whatever text is accepted, the parsed prefix has zero host bits. */
  lemma ParsedClean(n: nat, s: string)
    requires Width(n) && Parse(n, s).Cidr?
    ensures |Parse(n, s).net.ip| == n && Prefix.Clean(Parse(n, s).net)
  {
    var i := IndexOf(s, '/');
    if i == |s| {
      ParsedWidth(n, s);
    } else {
      ParsedWidth(n, s[..i]);
      Mask.HostBitsZeroIsFixpoint(ParseIp(n, s[..i]).bytes, Parse(n, s).net.length);
    }
  }

  lemma ConstructedClean(s: Start)
    requires Constructs(s)
    ensures Width(|Constructed(s).ip|) && Prefix.Clean(Constructed(s))
  {
    match s
    case FromNothing(n) => Prefix.StartsClean([], 0, seq(n, _ => 0));
    case FromIp(ip) => Prefix.StartsClean(ip, 0, []);
    case FromIpAndLength(ip, length) => Prefix.StartsClean(ip, length, []);
    case FromText(n, text) =>
      Prefix.StartsClean([], 0, seq(n, _ => 0));
      if Parse(n, text).Cidr? { ParsedClean(n, text); }
  }

  /**
    From every constructor, any history of set_bit and push_back_bit keeps the host bits zero; the
    prefix it ends with survives the raw overlay and reconstruction unchanged, with the same bits on
    both sides; and printing and parsing gives it back.
   */
  lemma HistorySurvives(s: Start, ops: seq<Prefix.Op>)
    requires Constructs(s) && Prefix.AllAllowed(Constructed(s), ops)
    ensures var p := Prefix.ApplyAll(Constructed(s), ops);
            && Prefix.Clean(p)
            && Prefix.FromRaw(Prefix.ToRaw(p), |p.ip|) == p
            && (forall i :: 0 <= i < p.length ==> Prefix.RawBit(Prefix.ToRaw(p), i) == Mask.GetBit(p.ip, i))
            && Width(|p.ip|) && Parse(|p.ip|, ToText(p)) == Cidr(p)
  {
    ConstructedClean(s);
    Prefix.HistoryClean(Constructed(s), ops);
    var p := Prefix.ApplyAll(Constructed(s), ops);
    Prefix.RawRoundTrip(p);
    forall i | 0 <= i < p.length ensures Prefix.RawBit(Prefix.ToRaw(p), i) == Mask.GetBit(p.ip, i) {
      Prefix.RawKeepsBits(p, i);
    }
    RoundTrip(p);
  }

  // ----- how far the parser reads -----

  /** Whether the address parser stays in the buffer and in its array. */
  predicate IpInside(n: nat, value: string, length: nat) {
    if n == 4 then !Ip4.ReadsBehind(value, length) else Ip6Parser.Parse(Visible(value, length)) != Overrun
  }

  /** The digits of the length run up to the end of an unterminated buffer. */
  predicate LengthReadsBehind(value: string, length: nat, slash: nat)
    requires slash < |Visible(value, length)|
  {
    |Visible(value, length)| == |value| && AllDec(value[slash + 1..])
  }

  predicate Inside(n: nat, value: string, length: nat) {
    var text := Visible(value, length);
    var i := IndexOf(text, '/');
    if i == |text| then IpInside(n, value, length)
    else
      match ParseIp(n, text[..i])
      case Parsed(_) => !LengthReadsBehind(value, length, i)
      case Rejected => true
      case Overrun => false
  }

  // ----- the object -----

  class IpPrefix {
    const ip: array<byte>
    var length: nat

    ghost predicate Valid()
      reads this
    {
      Width(ip.Length) && length <= 8 * ip.Length
    }

    ghost function Value(): Net
      reads this, ip
    {
      Prefix.Net(length, ip[..])
    }

    /** The empty prefix of a family. */
    constructor (n: nat)
      requires Width(n)
      ensures Valid() && fresh(ip) && ip.Length == n && Value() == Prefix.Net(0, seq(n, _ => 0))
    {
      ip := new byte[n](_ => 0);
      length := 0;
    }

    /** All bits of an address. */
    constructor Host(address: array<byte>)
      requires Width(address.Length)
      ensures Valid() && fresh(ip) && Value() == Prefix.Net(8 * address.Length, address[..])
    {
      ip := new byte[address.Length](i requires 0 <= i < address.Length reads address => address[i]);
      length := 8 * address.Length;
    }

    /** The address masked to a length. */
    constructor Masking(address: array<byte>, len: nat)
      requires Width(address.Length) && len <= 8 * address.Length
      ensures Valid() && fresh(ip) && Value() == Prefix.Net(len, Mask.Masked(address[..], len))
    {
      ip := new byte[address.Length](i requires 0 <= i < address.Length reads address => address[i]);
      length := len;
      new;
      assert ip[..] == address[..];
      Mask.MaskIp(ip, length);
    }

    /** The bytes of a raw overlay in front of zeros. */
    constructor FromRaw(raw: Prefix.Raw, n: nat)
      requires Width(n) && raw.length <= 8 * n && |raw.bytes| == Prefix.ValueSize(raw.length)
      ensures Valid() && fresh(ip) && Value() == Prefix.FromRaw(raw, n)
    {
      ip := new byte[n](_ => 0);
      length := raw.length;
      new;
      for i := 0 to |raw.bytes|
        modifies ip
        invariant forall k :: 0 <= k < i ==> ip[k] == raw.bytes[k]
        invariant forall k :: i <= k < n ==> ip[k] == 0
      {
        ip[i] := raw.bytes[i];
      }
      assert ip[..] == Prefix.FromRaw(raw, n).ip;
    }

    method SetBit(index: nat, value: bool)
      requires Valid() && index < length
      modifies ip
      ensures Valid() && Value() == Prefix.Apply(old(Value()), Prefix.SetBit(index, value))
      ensures forall j :: 0 <= j < 8 * ip.Length ==>
                Mask.GetBit(ip[..], j) == if j == index then (if value then 1 else 0) else old(Mask.GetBit(ip[..], j))
    {
      StoreBit(index, value);
      OneBit(old(ip[..]), index, value);
    }

    /** The byte update shared by set_bit and push_back_bit. */
    method StoreBit(index: nat, value: bool)
      requires index < 8 * ip.Length
      modifies ip
      ensures ip[..] == Prefix.WithBit(old(ip[..]), index, value)
    {
      var byteIndex, bitIndex := index / 8, index % 8;
      var bitMask := 0x80 / Bits.Pow2(bitIndex);
      ShiftedBit(bitIndex);
      Mask.Pow2Eight();
      Bits.OrBelow(ip[byteIndex], bitMask, 8);
      if value {
        ip[byteIndex] := Bits.Or(ip[byteIndex], bitMask);
      } else {
        ip[byteIndex] := Bits.And(ip[byteIndex], 0xff - bitMask);
      }
    }

    method GetBit(index: nat) returns (bit: bool)
      requires Valid() && index < length
      ensures bit <==> Mask.GetBit(ip[..], index) == 1
    {
      bit := Bits.Bit(ip[index / 8], 7 - index % 8) == 1;
    }

    method PushBackBit(bit: bool)
      requires Valid() && length < 8 * ip.Length
      modifies this, ip
      ensures Valid() && Value() == Prefix.Push(old(Value()), bit) && length == old(length) + 1
      ensures forall j :: 0 <= j < 8 * ip.Length ==>
                Mask.GetBit(ip[..], j) == if j == old(length) then (if bit then 1 else 0) else old(Mask.GetBit(ip[..], j))
    {
      var at := length;
      length := length + 1;
      StoreBit(at, bit);
      OneBit(old(ip[..]), at, bit);
    }

    /** `operator<<`: a copy with one more bit. */
    method Extended(bit: bool) returns (result: IpPrefix)
      requires Valid() && length < 8 * ip.Length
      ensures fresh(result) && fresh(result.ip) && result.Valid() && result.Value() == Prefix.Push(Value(), bit)
    {
      result := new IpPrefix.Host(ip);
      result.length := length;
      result.PushBackBit(bit);
    }

    method Network() returns (result: array<byte>)
      requires Valid()
      ensures fresh(result) && result[..] == Prefix.Network(Value())
    {
      result := Copy(ip);
      Mask.MaskIp(result, length);
    }

    method ContainsIp(other: array<byte>) returns (result: bool)
      requires Valid() && other.Length == ip.Length
      ensures result == Prefix.ContainsIp(Value(), other[..])
    {
      var masked := Copy(other);
      var selfMasked := Copy(ip);
      Mask.MaskIp(selfMasked, length);
      Mask.MaskIp(masked, length);
      result := masked[..] == selfMasked[..];
    }

    method ContainsNet(other: IpPrefix) returns (result: bool)
      requires Valid() && other.Valid() && other.ip.Length == ip.Length
      ensures result == Prefix.ContainsNet(Value(), other.Value())
    {
      if other.length < length {
        return false;
      }
      result := ContainsIp(other.ip);
    }

    /** `*this = {}` */
    method Clear()
      requires Valid()
      modifies this, ip
      ensures Valid() && Value() == Prefix.Net(0, seq(ip.Length, _ => 0))
    {
      length := 0;
      forall i | 0 <= i < ip.Length { ip[i] := 0; }
      assert ip[..] == seq(ip.Length, _ => 0);
    }

    method IpFromStr(value: string, len: nat) returns (ok: bool, inside: bool)
      requires Valid() && Readable(value, len)
      modifies ip
      ensures inside <==> IpInside(ip.Length, value, len)
      ensures inside ==> ok == ParseIp(ip.Length, Visible(value, len)).Parsed?
      ensures inside && ok ==> ip[..] == ParseIp(ip.Length, Visible(value, len)).bytes
    {
      if ip.Length == 4 {
        ok, inside := Ip4.FromStr(ip, value, len);
      } else {
        ok, inside := Ip6Parser.FromStr(ip, value, len);
      }
    }

    /**
      The buffer is `value`, terminated or at least `strLen` characters long. The loop over the
      length digits reads the next character before it looks at the limit; `inside` tells whether
      that stays in the buffer and the address parser in its bounds.
     */
    method FromStr(value: string, strLen: nat) returns (success: bool, inside: bool)
      requires Valid() && Readable(value, strLen)
      modifies this, ip
      ensures Valid() && (inside <==> Inside(ip.Length, value, strLen))
      ensures inside ==> success == Parse(ip.Length, Visible(value, strLen)).Cidr?
      ensures inside ==> Value() == if success then Parse(ip.Length, Visible(value, strLen)).net
                                    else Prefix.Net(0, seq(ip.Length, _ => 0))
    {
      ghost var text := Visible(value, strLen);
      ghost var slash := IndexOf(text, '/');
      var ptr, remaining := 0, strLen;
      var ipLen, foundSlash := 0, false;
      assert |text| == |value| ==> text == value && strLen <= |value|;
      while remaining > 0 && value[ptr] != NUL
        invariant ptr <= slash && remaining == strLen - ptr && !foundSlash
        decreases remaining
      {
        remaining := remaining - 1;
        assert value[ptr] == text[ptr];
        if value[ptr] == '/' {
          assert ptr == slash by { NotBefore(text, '/', ptr); }
          ipLen := ptr;
          foundSlash := true;
          ptr := ptr + 1;
          break;
        }
        ptr := ptr + 1;
      }
      if !foundSlash {
        success, inside := IpFromStr(value, strLen);
        if inside && success {
          length := 8 * ip.Length;
        } else if inside {
          Clear();
        }
        return;
      }
      VisibleSlice(value, strLen, ipLen);
      success, inside := IpFromStr(value, ipLen);
      if !inside {
        return;
      }
      if !success {
        Clear();
        return;
      }
      success, inside := FinishLength(value, strLen, ptr, remaining);
    }

    /** The prefix length after the slash. */
    method FinishLength(value: string, strLen: nat, from: nat, remaining: nat) returns (success: bool, inside: bool)
      requires Valid() && Readable(value, strLen)
      requires 0 < from <= |Visible(value, strLen)| && remaining == strLen - from
      modifies this, ip
      ensures Valid() && (inside <==> !LengthReadsBehind(value, strLen, from - 1))
      ensures inside ==>
                var r := ParseLength(old(ip[..]), Visible(value, strLen)[from..]);
                success == r.Cidr? && Value() == if success then r.net else Prefix.Net(0, seq(ip.Length, _ => 0))
    {
      var accum, hasDigits;
      accum, hasDigits, inside := ScanLength(value, strLen, from, remaining);
      if !inside {
        return false, inside;
      }
      if !hasDigits || accum > 8 * ip.Length {
        Clear();
        return false, inside;
      }
      length := accum;
      Mask.MaskIp(ip, length);
      return true, inside;
    }

    method ToStr() returns (text: string)
      requires Valid()
      ensures text == ToText(Value())
    {
      if ip.Length == 4 {
        text := Ip4.ToStr(ip[..]);
      } else {
        text := Ip6Printer.ToStr(ip, true, false);
      }
      text := text + "/" + Numeral(10, length);
    }
  }

  method Copy(source: array<byte>) returns (result: array<byte>)
    ensures fresh(result) && result[..] == source[..]
  {
    result := new byte[source.Length](i requires 0 <= i < source.Length reads source => source[i]);
  }

  lemma OneBit(x: seq<byte>, i: nat, v: bool)
    requires i < 8 * |x|
    ensures forall j :: 0 <= j < 8 * |x| ==>
              Mask.GetBit(Prefix.WithBit(x, i, v), j) == if j == i then (if v then 1 else 0) else Mask.GetBit(x, j)
  {
    forall j | 0 <= j < 8 * |x|
      ensures Mask.GetBit(Prefix.WithBit(x, i, v), j) == if j == i then (if v then 1 else 0) else Mask.GetBit(x, j)
    {
      Prefix.WithBitAt(x, i, v, j);
    }
  }

  lemma ShiftedBit(k: nat)
    requires k < 8
    ensures 0x80 / Bits.Pow2(k) == Bits.Pow2(7 - k) && Bits.AllBut(8, 7 - k) == 0xff - Bits.Pow2(7 - k)
  {
    Mask.Pow2Eight();
    assert Bits.Pow2(1) == 2 && Bits.Pow2(2) == 4 && Bits.Pow2(3) == 8 && Bits.Pow2(4) == 16;
    assert Bits.Pow2(5) == 32 && Bits.Pow2(6) == 64 && Bits.Pow2(7) == 128;
  }

  lemma NotBefore(s: string, c: char, i: nat)
    requires i <= IndexOf(s, c) && i < |s| && s[i] == c
    ensures i == IndexOf(s, c)
  {
    var head := s[..IndexOf(s, c)];
    assert forall k :: 0 <= k < |head| ==> s[k] == head[k] && head[k] in head;
  }

  /** The digits after the slash. */
  method ScanLength(value: string, strLen: nat, from: nat, remainingIn: nat)
    returns (accum: nat, hasDigits: bool, inside: bool)
    requires Readable(value, strLen) && 0 < from <= |Visible(value, strLen)| && remainingIn == strLen - from
    ensures inside <==> !LengthReadsBehind(value, strLen, from - 1)
    ensures var s := Visible(value, strLen)[from..];
            accum == Accumulate(U32, 10, 0, s[..LeadingDigits(s)]) && hasDigits == (s[..LeadingDigits(s)] != "")
  {
    ghost var text := Visible(value, strLen);
    ghost var s := text[from..];
    ghost var digits := s[..LeadingDigits(s)];
    ghost var k := 0;
    assert forall j :: 0 <= j < |digits| ==> IsDec(digits[j]) && s[j] == digits[j];
    assert |text| == |value| ==> text == value && strLen <= |value|;
    accum, hasDigits := 0, false;
    var ptr, remaining := from, remainingIn;
    while ptr < |value| && value[ptr] != NUL && remaining > 0
      invariant k <= |digits| && ptr == from + k && remaining == strLen - ptr && accum < U32
      invariant hasDigits == (k > 0)
      invariant Accumulate(U32, 10, accum, digits[k..]) == Accumulate(U32, 10, 0, digits)
      decreases remaining
    {
      remaining := remaining - 1;
      assert value[ptr] == text[ptr] == s[k];
      if IsDec(value[ptr]) {
        assert k < |digits| && digits[k] == value[ptr];
        assert digits[k..][1..] == digits[k + 1..];
        accum := (accum * 10 + Digit(value[ptr])) % U32;
        hasDigits := true;
      } else {
        break;
      }
      ptr := ptr + 1;
      k := k + 1;
    }
    inside := ptr < |value|;
    DigitsToEnd(s);
  }

  lemma DigitsToEnd(s: string)
    ensures AllDec(s) <==> LeadingDigits(s) == |s|
  {
    assert s[..|s|] == s;
  }
}
