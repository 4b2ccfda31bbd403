/** Letter case makes no difference to the address parsers. */
module LetterCase {
  import opened Text
  import Ip4
  import Ip6Parser

  lemma {:induction false} Ip6Run(st: Ip6Parser.State, s: string, t: string)
    requires |s| == |t|
    requires forall i :: 0 <= i < |s| ==> t[i] == s[i] || ('a' <= s[i] <= 'f' && t[i] as int == s[i] as int - 32)
    ensures Ip6Parser.Run(st, t) == Ip6Parser.Run(st, s)
    decreases |s|
  {
    if s != "" && !st.mode.Error? {
      var w := Ip6Parser.Width(s);
      assert Ip6Parser.Gap(t) == Ip6Parser.Gap(s);
      assert Ip6Parser.Step(st, t) == Ip6Parser.Step(st, s);
      Ip6Run(Ip6Parser.Step(st, s), s[w..], t[w..]);
    }
  }

  /** Writing any of the letters a to f of any text in upper case does not change what is parsed. */
  lemma Ip6Case(s: string, t: string)
    requires |s| == |t|
    requires forall i :: 0 <= i < |s| ==> t[i] == s[i] || ('a' <= s[i] <= 'f' && t[i] as int == s[i] as int - 32)
    ensures Ip6Parser.Parse(t) == Ip6Parser.Parse(s)
  {
    Ip6Run(Ip6Parser.INITIAL, s, t);
  }

  lemma {:induction false} Ip4Run(st: Ip4.State, s: string, t: string)
    requires |s| == |t| && !st.mode.Cont?
    requires forall i :: 0 <= i < |s| ==>
               t[i] == s[i] || (('a' <= s[i] <= 'f' || s[i] == 'x') && t[i] as int == s[i] as int - 32)
    ensures Ip4.Run(st, t) == Ip4.Run(st, s)
    decreases |s|
  {
    if s != "" && !st.mode.Error? && !st.mode.Bare? {
      assert Ip4.Marked(t) == Ip4.Marked(s);
      if st.mode.Start? && IsDec(s[0]) && Ip4.Marked(s) {
        if |s| > 2 { Ip4Run(Ip4.Digest(st.(mode := Ip4.Hex), s[2]), s[3..], t[3..]); }
      } else if st.mode.Start? && IsDec(s[0]) {
        Ip4Run(Ip4.Digest(st.(mode := Ip4.Dec), s[0]), s[1..], t[1..]);
      } else if !st.mode.Start? {
        Ip4Run(Ip4.Digest(st, s[0]), s[1..], t[1..]);
      }
    }
  }

  /** The same for IPv4, the mark x included. */
  lemma Ip4Case(s: string, t: string)
    requires |s| == |t|
    requires forall i :: 0 <= i < |s| ==>
               t[i] == s[i] || (('a' <= s[i] <= 'f' || s[i] == 'x') && t[i] as int == s[i] as int - 32)
    ensures Ip4.Parse(t) == Ip4.Parse(s)
  {
    Ip4Run(Ip4.INITIAL, s, t);
  }
}
