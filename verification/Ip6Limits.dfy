/** What becomes of IPv6 groups and octets that are too large: only their low 32 bits count. */
module Ip6Limits {
  import opened Text
  import opened Ip6Parser
  import opened Ip6Reference
  import opened Ip6Forms

  /** Hex words that differ by a multiple of 2^32. */
  predicate SameGroup(v: string, u: string) {
    AllHex(v) && AllHex(u) && HexVal(v) % U32 == HexVal(u) % U32
  }

  predicate SameOctet(v: string, u: string) {
    AllHex(v) && AllHex(u) && DecVal(v) % U32 == DecVal(u) % U32
  }

  predicate SameGroups(vs: seq<string>, us: seq<string>) {
    |vs| == |us| && forall i :: 0 <= i < |vs| ==> SameGroup(vs[i], us[i])
  }

  predicate SameOctets(vs: seq<string>, us: seq<string>) {
    |vs| == |us| && forall i :: 0 <= i < |vs| ==> SameOctet(vs[i], us[i])
  }

  /** The same marks, and words whose values differ by multiples of 2^32. */
  predicate Congruent(f: Form, g: Form) {
    f.gap == g.gap && SameGroups(f.left, g.left) && SameGroups(f.right, g.right) && SameOctets(f.tail, g.tail)
  }

  lemma SameFit(vs: seq<string>, us: seq<string>)
    requires SameGroups(vs, us)
    ensures (forall i :: 0 <= i < |vs| ==> GroupOk(vs[i])) <==> (forall i :: 0 <= i < |us| ==> GroupOk(us[i]))
    ensures (forall i :: 0 <= i < |vs| ==> GroupOk(vs[i])) ==> Values(vs) == Values(us)
  {
    forall i | 0 <= i < |vs| ensures GroupOk(vs[i]) <==> GroupOk(us[i]) { assert SameGroup(vs[i], us[i]); }
    if forall i :: 0 <= i < |vs| ==> GroupOk(vs[i]) {
      forall i | 0 <= i < |vs| ensures GroupValue(vs[i]) == GroupValue(us[i]) { assert SameGroup(vs[i], us[i]); }
    }
  }

  lemma SameOctetsFit(vs: seq<string>, us: seq<string>)
    requires SameOctets(vs, us)
    ensures (forall i :: 0 <= i < |vs| ==> OctetOk(vs[i])) <==> (forall i :: 0 <= i < |us| ==> OctetOk(us[i]))
    ensures |vs| == 4 && (forall i :: 0 <= i < 4 ==> OctetOk(vs[i])) ==> OctetsOf(vs) == OctetsOf(us)
  {
    forall i | 0 <= i < |vs| ensures OctetOk(vs[i]) <==> OctetOk(us[i]) { assert SameOctet(vs[i], us[i]); }
    if forall i :: 0 <= i < |vs| ==> OctetOk(vs[i]) {
      forall i | 0 <= i < |vs| ensures OctetValue(vs[i]) == OctetValue(us[i]) { assert SameOctet(vs[i], us[i]); }
    }
  }

  lemma SameVerdict(f: Form, g: Form)
    requires Shaped(f) && Shaped(g) && Congruent(f, g)
    ensures Verdict(f) == Verdict(g)
  {
    SameFit(f.left, g.left);
    SameFit(f.right, g.right);
    SameOctetsFit(f.tail, g.tail);
    assert ValuesFit(f) == ValuesFit(g) && CountFits(f) == CountFits(g);
    if ValuesFit(f) { assert TailValues(f) == TailValues(g); }
  }

  /** The parser does not tell words apart that agree in their low 32 bits, wherever they stand. */
  lemma WrappedPieces(f: Form, g: Form)
    requires Shaped(f) && Shaped(g) && Congruent(f, g)
    ensures Parse(TextOf(f)) == Parse(TextOf(g))
  {
    FormVerdict(f);
    FormVerdict(g);
    SameVerdict(f, g);
  }

  /** The form with another word in place of group `i`, counted over both sides of the gap. */
  function WithGroup(f: Form, i: nat, w: string): Form
    requires i < |f.left| + |f.right|
  {
    if i < |f.left| then f.(left := f.left[i := w]) else f.(right := f.right[i - |f.left| := w])
  }

  function GroupAt(f: Form, i: nat): string
    requires i < |f.left| + |f.right|
  {
    if i < |f.left| then f.left[i] else f.right[i - |f.left|]
  }

  lemma MultipleLost(v: nat, k: nat)
    ensures (v + U32 * k) % U32 == v % U32
  {
    ModAdd(v, k, U32);
  }

  /** Adding a multiple of 2^32 to any group is accepted and lost: "1:100000002::" is read as "1:2::". */
  lemma WrappedGroup(f: Form, i: nat, k: nat)
    requires Shaped(f) && i < |f.left| + |f.right|
    ensures AllHex(GroupAt(f, i))
    ensures var n := HexVal(GroupAt(f, i)) + U32 * k;
            && HexVal(Numeral(16, n)) == n
            && Parse(TextOf(WithGroup(f, i, Numeral(16, n)))) == Parse(TextOf(f))
  {
    var w := GroupAt(f, i);
    var n := HexVal(w) + U32 * k;
    NumeralValue(16, n);
    MultipleLost(HexVal(w), k);
    WrappedPieces(WithGroup(f, i, Numeral(16, n)), f);
  }

  /** The same for an octet of a dotted tail. */
  lemma WrappedOctet(f: Form, i: nat, k: nat)
    requires Shaped(f) && i < |f.tail|
    ensures AllDec(f.tail[i])
    ensures var n := DecVal(f.tail[i]) + U32 * k;
            && DecVal(Numeral(10, n)) == n
            && Parse(TextOf(f.(tail := f.tail[i := Numeral(10, n)]))) == Parse(TextOf(f))
  {
    var n := DecVal(f.tail[i]) + U32 * k;
    NumeralValue(10, n);
    MultipleLost(DecVal(f.tail[i]), k);
    WrappedPieces(f.(tail := f.tail[i := Numeral(10, n)]), f);
  }

  /** One group that is too large modulo 2^32 refuses the text; a group that only looks too large does not. */
  lemma LargeGroup(f: Form, i: nat)
    requires Shaped(f) && i < |f.left| + |f.right|
    ensures AllHex(GroupAt(f, i)) && (HexVal(GroupAt(f, i)) % U32 > 0xffff ==> Parse(TextOf(f)) == Rejected)
  {
    FormVerdict(f);
    if ValuesFit(f) { assert GroupOk(GroupAt(f, i)); }
  }

  /** A lone group of any length is judged by its low 32 bits. */
  lemma LoneGroup(w: string)
    requires IsWord(w)
    ensures var v := HexVal(w) % U32;
            Parse(w) == if v <= 0xffff then Parsed(Bytes(Zeros(7) + [v])) else Rejected
  {
    var f := Form([], false, [w], []);
    assert TextOf(f) == w by {
      assert [w][..0] == [];
      assert Separated([w]) == "" + w;
    }
    FormVerdict(f);
    assert GroupOk(f.right[0]) <==> GroupOk(w);
    if GroupOk(w) { LoneMeaning(w); }
  }

  lemma LoneMeaning(w: string)
    requires IsWord(w) && GroupOk(w)
    ensures var f := Form([], false, [w], []); WellFormed(f) && Meaning(f) == Zeros(7) + [GroupValue(w)]
  {
    assert Values([w]) + [] == [GroupValue(w)];
    assert Meaning(Form([], false, [w], [])) == [] + Zeros(7) + [GroupValue(w)];
  }
}
