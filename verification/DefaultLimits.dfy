/**
  Terminated strings under the default length limits. Printed texts are read back whole; the promise
  that the limit can be left alone for every terminated string holds exactly for short enough texts.
 */
module DefaultLimits {
  import opened Text
  import Ip4
  import Ip4Cut
  import Ip6Parser
  import Ip6Cut
  import Ip6Limits
  import Ip6RoundTrip
  import Addr4
  import Addr6
  import Prefix
  import Mask
  import Cidr

  const IP4_LIMIT: nat := 20
  const IP6_LIMIT: nat := 45
  const ADDR4_LIMIT: nat := 21
  const ADDR6_LIMIT: nat := 53
  const PREFIX_LIMIT: nat := 50

  /** What a parser sees of `text`, a terminator and anything behind it. */
  function Seen(text: string, behind: string, limit: nat): string {
    Visible(text + [NUL] + behind, limit)
  }

  lemma SeenCut(text: string, behind: string, limit: nat)
    requires NUL !in text
    ensures Seen(text, behind, limit) == if |text| <= limit then text else text[..limit]
  {
    VisibleTerminated(text, behind, |text|);
    if |text| <= limit {
      VisibleTerminated(text, behind, limit);
    } else {
      VisibleSlice(text + [NUL] + behind, |text|, limit);
    }
  }

  // ----- printed texts are read back -----

  lemma Ip4ReadsBack(a: seq<byte>, behind: string)
    requires |a| == 4
    ensures Ip4.Parse(Seen(Ip4.ToStr(a), behind, 20)) == Parsed(a)
  {
    Ip4.RoundTrip(a);
    var s := Ip4.ToStr(a);
    assert forall i :: 0 <= i < |s| ==> s[i] != NUL;
    VisibleTerminated(s, behind, IP4_LIMIT);
  }

  lemma Ip6ReadsBack(b: seq<byte>, reduction: bool, embedded: bool, behind: string)
    requires |b| == 16 && !Ip6RoundTrip.Ambiguous(Ip6Parser.Groups(b), reduction, embedded)
    ensures Ip6Parser.Parse(Seen(Ip6RoundTrip.ToText(b, reduction, embedded), behind, 45)) == Parsed(b)
  {
    Ip6RoundTrip.RoundTrip(b, reduction, embedded);
    Ip6SeenWhole(b, reduction, embedded, behind);
  }

  lemma Ip6SeenWhole(b: seq<byte>, reduction: bool, embedded: bool, behind: string)
    requires |b| == 16
    ensures var s := Ip6RoundTrip.ToText(b, reduction, embedded); Seen(s, behind, IP6_LIMIT) == s
  {
    Ip6RoundTrip.TextFits(b, reduction, embedded, NUL);
    SeenCut(Ip6RoundTrip.ToText(b, reduction, embedded), behind, IP6_LIMIT);
  }

  lemma SocketAddressesReadBack(a: seq<byte>, b: seq<byte>, port: nat, behind: string)
    requires |a| == 4 && |b| == 16 && port <= 0xffff
    ensures port != 0 ==>
              Addr4.Parse(Seen(Addr4.ToText(a, port), behind, 21)) == Addr4.Addr(a, port, true)
    ensures Addr6.Parse(Seen(Addr6.ToText(b, port, true, false), behind, 53)) == Addr6.Addr(b, port, true)
  {
    Addr4.RoundTrip(a, port);
    VisibleTerminated(Addr4.ToText(a, port), behind, ADDR4_LIMIT);
    Addr6.RoundTrip(b, port, true, false);
    VisibleTerminated(Addr6.ToText(b, port, true, false), behind, ADDR6_LIMIT);
  }

  lemma PrefixReadsBack(p: Prefix.Net, behind: string)
    requires Cidr.Width(|p.ip|) && Prefix.Fits(p)
    ensures Cidr.Parse(|p.ip|, Seen(Cidr.ToText(p), behind, 50))
         == Cidr.Cidr(Prefix.Net(p.length, Mask.Masked(p.ip, p.length)))
  {
    Cidr.RoundTrip(p);
    VisibleTerminated(Cidr.ToText(p), behind, PREFIX_LIMIT);
  }

  // ----- every format of a socket address -----

  /** A port that is cut short is smaller, and no port when all of it is cut. */
  lemma CutPort(w: string, k: nat)
    requires AllDec(w) && k <= |w| && DecVal(w) <= 0xffff
    ensures PortOf(w[..k]) == DecVal(w[..k]) <= DecVal(w) && LeadingDigits(w[..k]) == k
    ensures k < |w| && DecVal(w) > 0 ==> PortOf(w[..k]) < DecVal(w)
  {
    Ip4Cut.FoldPrefix(10, w, k);
    PortOfDigits(w[..k]);
  }

  lemma Addr4Fields(t: string, w: string)
    requires Ip4.Parse(t).Parsed? && AllDec(w)
    ensures NUL !in t && ':' !in t && NUL !in t + ":" + w
  {
    Addr4.RunAlphabet(Ip4.INITIAL, t);
    assert forall i :: 0 <= i < |w| ==> IsDec(w[i]);
  }

  lemma Addr4Cut(t: string, w: string)
    requires Ip4.Parse(t).Parsed? && w != "" && AllDec(w) && 0 < DecVal(w) <= 0xffff
    requires |t| + 1 + |w| > ADDR4_LIMIT
    ensures Addr4.Parse((t + ":" + w)[..ADDR4_LIMIT]) != Addr4.Addr(Ip4.Parse(t).bytes, DecVal(w), true)
  {
    var u := (t + ":" + w)[..ADDR4_LIMIT];
    Addr4Fields(t, w);
    Addr4.AcceptsExactly(u);
    if |t| >= ADDR4_LIMIT {
      assert forall i :: 0 <= i < |u| ==> u[i] == t[i];
      assert IndexOf(u, ':') == |u|;
    } else {
      var k := ADDR4_LIMIT - |t| - 1;
      CutPort(w, k);
      assert u == t + ":" + w[..k];
      Addr4.Parts(t, w[..k]);
    }
  }

  /**
    Every IPv4 format in front of a port is read under the default limit exactly when it has no
    upper-case hex mark and the whole text fits the limit. "0xc0.0xa8.0x02.0x01:8080" does not: it
    is read as port 8.
   */
  lemma Addr4Default(t: string, w: string, behind: string)
    requires Ip4.Parse(t).Parsed? && w != "" && AllDec(w) && 0 < DecVal(w) <= 0xffff
    ensures Addr4.Parse(Seen(t + ":" + w, behind, 21)) == Addr4.Addr(Ip4.Parse(t).bytes, DecVal(w), true)
       <==> 'X' !in t && |t| + 1 + |w| <= 21
  {
    Addr4Fields(t, w);
    SeenCut(t + ":" + w, behind, ADDR4_LIMIT);
    if |t| + 1 + |w| <= ADDR4_LIMIT {
      Addr4.EveryFormat(t, w);
    } else {
      Addr4Cut(t, w);
    }
  }

  /** How much of a bracketed address is left when the text is cut behind the bracket. */
  lemma Addr6CutTail(t: string, tail: string, port: nat)
    requires Ip6Parser.Parse(t).Parsed? && Addr6.TailOk(tail)
    ensures Addr6.Parse("[" + t + "]" + tail) == Addr6.Addr(Ip6Parser.Parse(t).bytes, port, true) <==>
            |t| >= 2 && Addr6.TailPort(tail) == port
  {
    var s := "[" + t + "]" + tail;
    Addr6.ParsedAlphabet(Ip6Parser.INITIAL, t);
    assert ']' !in t;
    Addr6.BracketAt(s, t, tail);
    Addr6.InBrackets(s, t, tail);
    Addr6.AcceptsExactly(s);
  }

  lemma ColonTail(w: string)
    requires AllDec(w) && DecVal(w) <= 0xffff
    ensures Addr6.TailOk(":" + w) && Addr6.TailPort(":" + w) == DecVal(w)
  {
    assert (":" + w)[1..] == w;
    PortOfDigits(w);
  }

  lemma Addr6Cut(t: string, w: string)
    requires Ip6Parser.Parse(t).Parsed? && AllDec(w) && DecVal(w) <= 0xffff
    requires |t| + 3 + |w| > ADDR6_LIMIT
    ensures Addr6.Parse(("[" + t + "]:" + w)[..ADDR6_LIMIT]) == Addr6.Addr(Ip6Parser.Parse(t).bytes, DecVal(w), true)
       <==> |t| >= 2 && DecVal(w) == 0 && |t| + 2 <= ADDR6_LIMIT
  {
    var s := "[" + t + "]:" + w;
    var u := s[..ADDR6_LIMIT];
    if |t| + 2 > ADDR6_LIMIT {
      OpenBracket(t, w);
    } else {
      var m := ADDR6_LIMIT - |t| - 2;
      assert u == "[" + t + "]" + (":" + w)[..m];
      if m == 0 {
        Addr6CutTail(t, "", DecVal(w));
        assert (":" + w)[..0] == "";
      } else {
        CutPort(w, m - 1);
        assert (":" + w)[..m] == ":" + w[..m - 1];
        ColonTail(w[..m - 1]);
        Addr6CutTail(t, ":" + w[..m - 1], DecVal(w));
      }
      NoDigits();
    }
  }

  lemma NoDigits()
    ensures Addr6.TailOk("") && Addr6.TailPort("") == 0
  {}

  /** A text that is cut in front of the closing bracket is refused. */
  lemma OpenBracket(t: string, w: string)
    requires Ip6Parser.Parse(t).Parsed? && |t| + 2 > ADDR6_LIMIT
    ensures var r := Addr6.Parse(("[" + t + "]:" + w)[..ADDR6_LIMIT]); !(r.Addr? && r.ok)
  {
    var u := ("[" + t + "]:" + w)[..ADDR6_LIMIT];
    Addr6.ParsedAlphabet(Ip6Parser.INITIAL, t);
    assert forall i :: 0 <= i < |u| - 1 ==> u[1..][i] == t[i];
    assert IndexOf(u[1..], ']') == |u| - 1;
    Addr6.AcceptsExactly(u);
  }

  /**
    Every IPv6 format in brackets is read under the default limit exactly when it has two characters
    or more and the whole text fits, or all but zeros of a zero port.
   */
  lemma Addr6Default(t: string, w: string, behind: string)
    requires Ip6Parser.Parse(t).Parsed? && w != "" && AllDec(w) && DecVal(w) <= 0xffff
    ensures Addr6.Parse(Seen("[" + t + "]:" + w, behind, 53)) == Addr6.Addr(Ip6Parser.Parse(t).bytes, DecVal(w), true)
       <==> |t| >= 2 && (|t| + 3 + |w| <= 53 || (DecVal(w) == 0 && |t| + 2 <= 53))
  {
    var s := "[" + t + "]:" + w;
    Addr6.ParsedAlphabet(Ip6Parser.INITIAL, t);
    assert forall i :: 0 <= i < |w| ==> IsDec(w[i]);
    assert NUL !in s;
    SeenCut(s, behind, ADDR6_LIMIT);
    if |s| <= ADDR6_LIMIT {
      Addr6.Bracketed(t, w);
      Addr6.EveryFormat(t, w);
    } else {
      Addr6Cut(t, w);
    }
  }

  // ----- IPv4 texts -----

  /**
    An IPv4 text whose numbers fit is read alike under the default limit exactly when it is short
    enough or all that is cut off is zero. "0xc0.0xa8.0x02.0x0001" is neither: it is read as
    192.168.2.0.
   */
  lemma Ip4Default(t: string, behind: string)
    requires Ip4Cut.NumbersFit(Ip4.Split(t))
    ensures Ip4.Parse(t).Parsed?
    ensures Ip4.Parse(Seen(t, behind, 20)) == Ip4.Parse(t) <==>
            |t| <= 20 || Ip4Cut.ZeroFrom(Ip4.Split(t), Ip4.Split(t[..20]))
  {
    FitsIsAccepted(t);
    Addr4Fields(t, "");
    SeenCut(t, behind, IP4_LIMIT);
    if |t| > IP4_LIMIT { Ip4Cut.CutExactly(t, IP4_LIMIT); }
  }

  lemma FitsIsAccepted(t: string)
    requires Ip4Cut.NumbersFit(Ip4.Split(t))
    ensures Ip4.Parse(t).Parsed?
  {
    Ip4.ParserMeetsReference(t);
    Ip4Cut.WholeAddress(Ip4.Split(t));
  }

  // ----- for which lengths the limit can be left alone -----

  ghost predicate Ip4Alike(n: nat) {
    forall t: string, behind: string :: |t| == n && Ip4.Parse(t).Parsed? ==>
      Ip4.Parse(Seen(t, behind, IP4_LIMIT)) == Ip4.Parse(t)
  }

  ghost predicate Ip6Alike(n: nat) {
    forall t: string, behind: string :: |t| == n && Ip6Parser.Parse(t).Parsed? ==>
      Ip6Parser.Parse(Seen(t, behind, IP6_LIMIT)) == Ip6Parser.Parse(t)
  }

  ghost predicate PrefixAlike(width: nat, n: nat) {
    forall t: string, behind: string :: |t| == n && Cidr.Parse(width, t).Cidr? && NUL !in t ==>
      Cidr.Parse(width, Seen(t, behind, PREFIX_LIMIT)) == Cidr.Parse(width, t)
  }

  function Zeros(n: nat): (w: string)
    ensures |w| == n && AllDec(w) && NUL !in w
  {
    seq(n, _ => '0')
  }

  lemma {:induction false} ZerosValue(base: nat, n: nat)
    ensures Fold(base, 0, Zeros(n)) == 0
  {
    if n > 0 {
      ZerosValue(base, n - 1);
      assert Zeros(n)[1..] == Zeros(n - 1) && Digit('0') == 0;
    }
  }

  /** Zeros and then a one: `n` characters with the value 1. */
  lemma PaddedOne(base: nat, n: nat)
    requires n > 0
    ensures var w := Zeros(n - 1) + "1"; |w| == n && AllDec(w) && NUL !in w && Fold(base, 0, w) == 1
    ensures forall k :: 0 <= k < n ==> (Zeros(n - 1) + "1")[..k] == Zeros(k)
  {
    ZerosValue(base, n - 1);
    FoldAppend(base, 0, Zeros(n - 1), '1');
  }

  lemma Ip4Short(n: nat)
    requires n <= IP4_LIMIT
    ensures Ip4Alike(n)
  {
    forall t: string, behind: string | |t| == n && Ip4.Parse(t).Parsed?
      ensures Ip4.Parse(Seen(t, behind, IP4_LIMIT)) == Ip4.Parse(t)
    {
      Addr4.RunAlphabet(Ip4.INITIAL, t);
      SeenCut(t, behind, IP4_LIMIT);
    }
  }

  lemma LoneZero(n: nat)
    requires n > 0
    ensures Ip4.Parse(Zeros(n)) == Parsed(Ip4.FromUint32(0))
  {
    ZerosValue(10, n);
    SmallMod(0, U32);
    Ip4.LoneDecimal(Zeros(n));
  }

  lemma LoneOne(n: nat)
    requires n > 0
    ensures Ip4.Parse(Zeros(n - 1) + "1") == Parsed(Ip4.FromUint32(1))
  {
    PaddedOne(10, n);
    SmallMod(1, U32);
    Ip4.LoneDecimal(Zeros(n - 1) + "1");
  }

  lemma Ip4Long(n: nat)
    requires n > IP4_LIMIT
    ensures !Ip4Alike(n)
  {
    var t := Zeros(n - 1) + "1";
    PaddedOne(10, n);
    LoneZero(IP4_LIMIT);
    LoneOne(n);
    SeenCut(t, "", IP4_LIMIT);
    assert Ip4.Parse(Seen(t, "", IP4_LIMIT)) != Ip4.Parse(t);
  }

  /** Leaving the limit at its default is right for all IPv4 texts of a length exactly up to 20. */
  lemma Ip4Lengths(n: nat)
    ensures Ip4Alike(n) <==> n <= 20
  {
    if n <= IP4_LIMIT { Ip4Short(n); } else { Ip4Long(n); }
  }

  lemma LoneGroups(n: nat)
    requires n > 0
    ensures Ip6Parser.Parse(Zeros(n - 1) + "1") == Parsed(Ip6Parser.Bytes(Ip6Parser.Zeros(7) + [1]))
    ensures Ip6Parser.Parse(Zeros(n)) == Parsed(Ip6Parser.Bytes(Ip6Parser.Zeros(7) + [0]))
  {
    PaddedOne(16, n);
    ZerosValue(16, n);
    assert forall i :: 0 <= i < n ==> IsDec(Zeros(n)[i]);
    Ip6Limits.LoneGroup(Zeros(n - 1) + "1");
    Ip6Limits.LoneGroup(Zeros(n));
  }

  lemma OneIsNotZero()
    ensures Ip6Parser.Bytes(Ip6Parser.Zeros(7) + [1]) != Ip6Parser.Bytes(Ip6Parser.Zeros(7) + [0])
  {
    Ip6Parser.BytesAt(Ip6Parser.Zeros(7) + [1], 7);
    Ip6Parser.BytesAt(Ip6Parser.Zeros(7) + [0], 7);
  }

  /** The same for IPv6 texts and 45. */
  lemma Ip6Lengths(n: nat)
    ensures Ip6Alike(n) <==> n <= 45
  {
    if n <= IP6_LIMIT {
      forall t: string, behind: string | |t| == n && Ip6Parser.Parse(t).Parsed?
        ensures Ip6Parser.Parse(Seen(t, behind, IP6_LIMIT)) == Ip6Parser.Parse(t)
      {
        Addr6.ParsedAlphabet(Ip6Parser.INITIAL, t);
        SeenCut(t, behind, IP6_LIMIT);
      }
    } else {
      var t := Zeros(n - 1) + "1";
      PaddedOne(16, n);
      LoneGroups(n);
      LoneGroups(IP6_LIMIT);
      OneIsNotZero();
      SeenCut(t, "", IP6_LIMIT);
      assert Ip6Parser.Parse(Seen(t, "", IP6_LIMIT)) != Ip6Parser.Parse(t);
    }
  }

  /**
    No longer text is safe: for every accepted text of more than 45 characters there is another one
    that looks the same under the default limit and stands for another address, so the parser is
    wrong about one of the two.
   */
  lemma Ip6Blind(t: string, behind: string) returns (t2: string)
    requires Ip6Parser.Parse(t).Parsed? && |t| > 45
    ensures Ip6Parser.Parse(t2).Parsed? && |t2| > 45 && Seen(t2, behind, 45) == Seen(t, behind, 45)
    ensures var seen := Ip6Parser.Parse(Seen(t, behind, 45));
            seen != Ip6Parser.Parse(t) || seen != Ip6Parser.Parse(t2)
  {
    t2 := Ip6Cut.LookAlike(t);
    Ip6NoNul(t);
    Ip6NoNul(t2);
    SeenCut(t, behind, IP6_LIMIT);
    SeenCut(t2, behind, IP6_LIMIT);
    SamePrefix(t, t2, |t2| - 1, IP6_LIMIT);
  }

  lemma Ip6NoNul(t: string)
    requires Ip6Parser.Parse(t).Parsed?
    ensures NUL !in t
  {
    Addr6.ParsedAlphabet(Ip6Parser.INITIAL, t);
  }

  lemma SamePrefix(t: string, t2: string, n: nat, k: nat)
    requires k <= n <= |t| && n <= |t2| && t[..n] == t2[..n]
    ensures t[..k] == t2[..k]
  {
    assert t[..k] == t[..n][..k] && t2[..k] == t2[..n][..k];
  }

  /** The same for prefixes of both families and 50. */
  lemma PrefixLengths(width: nat, n: nat)
    requires Cidr.Width(width)
    ensures PrefixAlike(width, n) <==> n <= 50
  {
    if n <= PREFIX_LIMIT {
      forall t: string, behind: string | |t| == n && Cidr.Parse(width, t).Cidr? && NUL !in t
        ensures Cidr.Parse(width, Seen(t, behind, PREFIX_LIMIT)) == Cidr.Parse(width, t)
      {
        SeenCut(t, behind, PREFIX_LIMIT);
      }
    } else {
      var w := Zeros(n - 3) + "1";
      var t := "0/" + w;
      PaddedOne(10, n - 2);
      ZerosValue(10, PREFIX_LIMIT - 2);
      ZeroPrefix(width, w);
      ZeroPrefix(width, Zeros(PREFIX_LIMIT - 2));
      assert t[..PREFIX_LIMIT] == "0/" + w[..PREFIX_LIMIT - 2];
      SeenCut(t, "", PREFIX_LIMIT);
      assert Cidr.Parse(width, Seen(t, "", PREFIX_LIMIT)) != Cidr.Parse(width, t);
    }
  }

  lemma ZeroAddress(width: nat)
    requires Cidr.Width(width)
    ensures var r := Cidr.ParseIp(width, "0"); r.Parsed? && |r.bytes| == width
  {
    if width == 4 {
      Ip4.LoneDecimal("0");
    } else {
      LoneGroups(1);
      assert Zeros(1) == "0";
    }
  }

  /** A prefix of the address 0 has the length its digits say. */
  lemma ZeroPrefix(width: nat, w: string)
    requires Cidr.Width(width) && w != "" && AllDec(w) && DecVal(w) <= 32
    ensures var r := Cidr.Parse(width, "0/" + w); r.Cidr? && r.net.length == DecVal(w)
  {
    var s := "0/" + w;
    assert s == "0" + ("/" + w);
    IndexOfConcat("0", '/', "/" + w);
    assert s[..1] == "0" && s[2..] == w == w + "";
    ZeroAddress(width);
    Cidr.LengthModulo(Cidr.ParseIp(width, "0").bytes, w, "");
  }
}
