/** IPv4-mapped IPv6 addresses (section 2.5.5.2 of RFC 4291): both parsers and both printers. */
module Ip4Mapped {
  import opened Text
  import opened Ip6Parser
  import opened Ip6Reference
  import opened Ip6Forms
  import opened Ip6Printer
  import opened Ip6RoundTrip
  import Ip4

  /** The mapping constructor. */
  function Map(a: seq<byte>): (b: seq<byte>)
    requires |a| == 4
    ensures |b| == 16
  {
    [0, 0, 0, 0, 0, 0, 0, 0, 0, 0, 0xff, 0xff] + a
  }

  /** A 32-bit load on a little-endian host. */
  function Load32(b: seq<byte>, i: nat): nat
    requires i + 4 <= |b|
  {
    b[i] as int + b[i + 1] as int * 0x100 + b[i + 2] as int * 0x1_0000 + b[i + 3] as int * 0x100_0000
  }

  predicate IsIp4(b: seq<byte>)
    requires |b| == 16
  {
    Load32(b, 0) == 0 && Load32(b, 4) == 0 && Load32(b, 8) == 0xffff_0000
  }

  function GetIp4(b: seq<byte>): (a: seq<byte>)
    requires |b| == 16
    ensures |a| == 4
  {
    b[12..]
  }

  lemma Load32Digits(b: seq<byte>, i: nat)
    requires i + 4 <= |b|
    ensures Load32(b, i) == 0 <==> b[i] == 0 && b[i + 1] == 0 && b[i + 2] == 0 && b[i + 3] == 0
    ensures Load32(b, i) == 0xffff_0000 <==> b[i] == 0 && b[i + 1] == 0 && b[i + 2] == 0xff && b[i + 3] == 0xff
  {}

  /** The three 32-bit tests recognise exactly the image of the mapping, and it can be undone. */
  lemma MappedImage(a: seq<byte>, b: seq<byte>)
    requires |a| == 4 && |b| == 16
    ensures IsIp4(b) <==> b == Map(GetIp4(b))
    ensures IsIp4(b) <==> b == [0, 0, 0, 0, 0, 0, 0, 0, 0, 0, 0xff, 0xff] + b[12..]
    ensures IsIp4(Map(a)) && GetIp4(Map(a)) == a
  {
    Load32Digits(b, 0);
    Load32Digits(b, 4);
    Load32Digits(b, 8);
    if IsIp4(b) {
      assert b[..12] == [0, 0, 0, 0, 0, 0, 0, 0, 0, 0, 0xff, 0xff];
      assert b == b[..12] + b[12..];
    }
    assert Map(a)[12..] == a;
  }

  lemma GroupsOfMap(a: seq<byte>)
    requires |a| == 4
    ensures Groups(Map(a)) == [0, 0, 0, 0, 0, 0xffff] + Quad(a)
    ensures Bytes(Groups(Map(a))) == Map(a)
  {
    var b := Map(a);
    forall i | 0 <= i < 8 ensures Groups(b)[i] == ([0, 0, 0, 0, 0, 0xffff] + Quad(a))[i] {
      GroupsAt(b, i);
    }
    BytesOfGroups(b);
  }

  lemma OctetIsNumber(w: string)
    requires IsDecimal(w) && OctetOk(w)
    ensures Ip4.IsNumber(w, true) && Ip4.NumberValue(w, true) == OctetValue(w)
  {
    Ip4.DecimalUnmarked(w);
  }

  lemma TailMeans(f: Form)
    requires WellFormed(f) && f.left == [] && f.right == [] && f.tail != []
    ensures Meaning(f) == Groups(Map(OctetsOf(f.tail)))
  {
    var q := Quad(OctetsOf(f.tail));
    GroupsOfMap(OctetsOf(f.tail));
    assert Values(f.right) + TailValues(f) == [0xffff] + q;
    assert Meaning(f) == [] + Zeros(5) + ([0xffff] + q);
    assert Meaning(f) == [0, 0, 0, 0, 0, 0xffff] + q;
  }

  /**
    Four decimal octets: the IPv6 parser gives what the IPv4 parser and the mapping constructor
    give together, with or without a leading "::".
   */
  lemma ParseSquare(tail: seq<string>)
    requires |tail| == 4 && forall i :: 0 <= i < 4 ==> IsDecimal(tail[i]) && OctetOk(tail[i])
    ensures Ip4.Parse(Dotted(tail)) == Parsed(OctetsOf(tail))
    ensures Parse(Dotted(tail)) == Parsed(Map(OctetsOf(tail)))
    ensures Parse("::" + Dotted(tail)) == Parsed(Map(OctetsOf(tail)))
  {
    var a := OctetsOf(tail);
    forall i | 0 <= i < 4 ensures Ip4.IsNumber(tail[i], true) && Ip4.NumberValue(tail[i], true) == a[i] {
      OctetIsNumber(tail[i]);
    }
    Ip4.FourOctets(tail, a);
    Ip4.JoinFour(tail);
    GroupsOfMap(a);
    assert Parse(Dotted(tail)) == Parsed(Map(a)) by {
      var f := Form([], false, [], tail);
      FormVerdict(f);
      TailMeans(f);
      Glue("", Dotted(tail), "");
    }
    assert Parse("::" + Dotted(tail)) == Parsed(Map(a)) by {
      var f := Form([], true, [], tail);
      FormVerdict(f);
      TailMeans(f);
      Glue("", "::", Dotted(tail));
      Glue("", Dotted(tail), "");
    }
  }

  lemma MappedFormText(tail: seq<string>)
    requires |tail| == 4
    ensures TextOf(Form([], true, ["ffff"], tail)) == "::ffff:" + Dotted(tail)
  {
    assert Colons(["ffff"]) == "ffff" + ":" + Colons([]);
    assert Colons(["ffff"]) == "ffff:";
    assert "" + "::" + ("ffff:" + Dotted(tail)) == "::ffff:" + Dotted(tail);
  }

  lemma MapForm(a: seq<byte>, embedded: bool)
    requires |a| == 4
    ensures PrintForm(Groups(Map(a)), true, embedded) == Form([], true, ["ffff"], OctetTexts(a))
  {
    GroupsOfMap(a);
    var g := Groups(Map(a));
    RunIs(g, 0, 5);
    RunIs(g[..6], 0, 5);
    MappedForm(g, embedded, 0);
    TailBytes(Map(a));
    assert Map(a)[12..] == a;
    assert Texts(g[..0]) == [];
  }

  /** The mapped address prints as "::ffff:" and the text of the IPv4 printer. */
  lemma PrintSquare(a: seq<byte>, embedded: bool)
    requires |a| == 4
    ensures ToText(Map(a), true, embedded) == "::ffff:" + Ip4.ToStr(a)
  {
    MapForm(a, embedded);
    MappedFormText(OctetTexts(a));
  }
}
