/** IP prefixes: containment, extension by one bit, the raw overlay, and their laws. */
module Prefix {
  import opened Bits
  import opened Mask

  /** A prefix as a value: its length in bits and its address bytes. */
  datatype Net = Net(length: nat, ip: seq<byte>)

  predicate Fits(p: Net) {
    p.length <= 8 * |p.ip|
  }

  function Network(p: Net): seq<byte> {
    Masked(p.ip, p.length)
  }

  predicate ContainsIp(p: Net, a: seq<byte>) {
    Masked(a, p.length) == Masked(p.ip, p.length)
  }

  predicate ContainsNet(p: Net, q: Net) {
    q.length >= p.length && ContainsIp(p, q.ip)
  }

  /** The address with bit `i` set to `v`. */
  function WithBit(x: seq<byte>, i: nat, v: bool): (r: seq<byte>)
    requires i < 8 * |x|
    ensures |r| == |x|
  {
    var k := 7 - i % 8;
    x[i / 8 := BitByte(x[i / 8], k, v)]
  }

  function BitByte(x: byte, k: nat, v: bool): (r: byte)
    requires k < 8
  {
    Pow2Eight();
    Pow2Monotone(k + 1, 8);
    OrBelow(x, Pow2(k), 8);
    if v then Or(x, Pow2(k)) else And(x, AllBut(8, k))
  }

  function Push(p: Net, bit: bool): (r: Net)
    requires p.length < 8 * |p.ip|
    ensures Fits(r)
  {
    Net(p.length + 1, WithBit(p.ip, p.length, bit))
  }

  /** Setting a bit changes that bit and no other. */
  lemma WithBitAt(x: seq<byte>, i: nat, v: bool, j: nat)
    requires i < 8 * |x| && j < 8 * |x|
    ensures GetBit(WithBit(x, i, v), j) == if j == i then (if v then 1 else 0) else GetBit(x, j)
  {
    if i / 8 == j / 8 {
      var b := x[i / 8];
      var k, m := 7 - i % 8, 7 - j % 8;
      assert j == i <==> m == k;
      OrBit(b, Pow2(k), m);
      Pow2Bit(k, m);
      AndBit(b, AllBut(8, k), m);
      AllButBit(8, k, m);
    }
  }

  // ----- containment -----

  /** An address is contained when it agrees with the prefix on the prefix bits. */
  lemma ContainsMeansAgree(p: Net, a: seq<byte>)
    requires |a| == |p.ip|
    ensures ContainsIp(p, a) <==> Agree(a, p.ip, p.length)
  {
    MaskedEqual(a, p.ip, p.length);
  }

  /** Two prefixes are nested or have no address in common. */
  lemma Laminar(p: Net, q: Net)
    requires |p.ip| == |q.ip|
    ensures ContainsNet(p, q) || ContainsNet(q, p)
         || forall a: seq<byte> | |a| == |p.ip| :: !(ContainsIp(p, a) && ContainsIp(q, a))
  {
    forall a: seq<byte> | |a| == |p.ip| && ContainsIp(p, a) && ContainsIp(q, a)
      ensures ContainsNet(p, q) || ContainsNet(q, p)
    {
      ContainsMeansAgree(p, a);
      ContainsMeansAgree(q, a);
      ContainsMeansAgree(p, q.ip);
      ContainsMeansAgree(q, p.ip);
    }
  }

  /** A prefix contains another exactly when it contains all its addresses. */
  lemma ContainsIsSubset(p: Net, q: Net)
    requires |p.ip| == |q.ip| && Fits(p)
    ensures ContainsNet(p, q) <==>
            forall a: seq<byte> | |a| == |q.ip| :: ContainsIp(q, a) ==> ContainsIp(p, a)
  {
    ContainsMeansAgree(p, q.ip);
    if ContainsNet(p, q) {
      forall a: seq<byte> | |a| == |q.ip| && ContainsIp(q, a) ensures ContainsIp(p, a) {
        ContainsMeansAgree(q, a);
        ContainsMeansAgree(p, a);
      }
    } else if q.length < p.length {
      // the address that differs from q.ip in the first bit that only p fixes
      var i := q.length;
      var flipped := WithBit(q.ip, i, GetBit(p.ip, i) == 0);
      forall j | 0 <= j < 8 * |q.ip| ensures j != i ==> GetBit(flipped, j) == GetBit(q.ip, j) {
        WithBitAt(q.ip, i, GetBit(p.ip, i) == 0, j);
      }
      WithBitAt(q.ip, i, GetBit(p.ip, i) == 0, i);
      ContainsMeansAgree(q, flipped);
      ContainsMeansAgree(p, flipped);
      assert ContainsIp(q, flipped) && !ContainsIp(p, flipped);
    } else {
      assert ContainsIp(q, q.ip) && !ContainsIp(p, q.ip);
    }
  }

  /** Containment is an aligned interval of 2^(W - length) numbers starting at the network address. */
  lemma ContainsIsInterval(p: Net, a: seq<byte>)
    requires |a| == |p.ip| && Fits(p)
    ensures var size := Pow2(8 * |p.ip| - p.length);
            && Number(Network(p)) % size == 0
            && (ContainsIp(p, a) <==> Number(Network(p)) <= Number(a) < Number(Network(p)) + size)
  {
    var d := Pow2(8 * |p.ip| - p.length);
    MaskedNumber(p.ip, p.length);
    MaskedNumber(a, p.length);
    NumberInjective(Masked(a, p.length), Network(p));
    AlignedInterval(Number(p.ip), Number(a), d);
  }

  lemma AlignedInterval(x: nat, y: nat, d: nat)
    requires d > 0
    ensures (x - x % d) % d == 0
    ensures x - x % d == y - y % d <==> x - x % d <= y < x - x % d + d
  {
    var q := x / d;
    assert x == d * q + x % d;
    ModUnique(x - x % d, d, q, 0);
    if x - x % d <= y < x - x % d + d {
      ModUnique(y, d, q, y - d * q);
    }
  }

  // ----- extension by one bit -----

  /** The two one-bit extensions split the addresses of a prefix and are contained in it. */
  lemma PushPartitions(p: Net, a: seq<byte>)
    requires |a| == |p.ip| && p.length < 8 * |p.ip|
    ensures ContainsIp(p, a) <==> ContainsIp(Push(p, false), a) || ContainsIp(Push(p, true), a)
    ensures !(ContainsIp(Push(p, false), a) && ContainsIp(Push(p, true), a))
    ensures ContainsNet(p, Push(p, false)) && ContainsNet(p, Push(p, true))
  {
    PushContains(p, false, a);
    PushContains(p, true, a);
    PushContains(p, false, Push(p, false).ip);
    PushContains(p, true, Push(p, true).ip);
  }

  lemma PushContains(p: Net, bit: bool, a: seq<byte>)
    requires |a| == |p.ip| && p.length < 8 * |p.ip|
    ensures ContainsIp(Push(p, bit), a) <==> ContainsIp(p, a) && GetBit(a, p.length) == if bit then 1 else 0
  {
    var q := Push(p, bit);
    ContainsMeansAgree(p, a);
    ContainsMeansAgree(q, a);
    forall j | 0 <= j < 8 * |a|
      ensures GetBit(q.ip, j) == if j == p.length then (if bit then 1 else 0) else GetBit(p.ip, j)
    {
      WithBitAt(p.ip, p.length, bit, j);
    }
    if ContainsIp(q, a) { assert GetBit(a, p.length) == GetBit(q.ip, p.length); }
  }

  function PushAll(p: Net, bits: seq<bool>): (r: Net)
    requires p.length + |bits| <= 8 * |p.ip|
    ensures |r.ip| == |p.ip| && r.length == p.length + |bits|
    decreases |bits|
  {
    if bits == [] then p else PushAll(Push(p, bits[0]), bits[1..])
  }

  /** Pushing a list of bits leaves the earlier bits alone and appends the list. */
  lemma {:induction false} PushAllBits(p: Net, bits: seq<bool>, i: nat)
    requires p.length + |bits| <= 8 * |p.ip| && i < p.length + |bits|
    ensures GetBit(PushAll(p, bits).ip, i)
         == if i < p.length then GetBit(p.ip, i) else if bits[i - p.length] then 1 else 0
    decreases |bits|
  {
    if bits != [] {
      PushAllBits(Push(p, bits[0]), bits[1..], i);
      WithBitAt(p.ip, p.length, bits[0], i);
    }
  }

  // ----- histories keep the host bits zero -----

  datatype Op = SetBit(index: nat, value: bool) | PushBack(bit: bool)

  /** The assertions of the source. */
  predicate Allowed(p: Net, op: Op) {
    match op
    case SetBit(i, _) => i < p.length && Fits(p)
    case PushBack(_) => p.length < 8 * |p.ip|
  }

  function Apply(p: Net, op: Op): (r: Net)
    requires Allowed(p, op)
    ensures |r.ip| == |p.ip| && Fits(r)
  {
    match op
    case SetBit(i, v) => Net(p.length, WithBit(p.ip, i, v))
    case PushBack(bit) => Push(p, bit)
  }

  predicate AllAllowed(p: Net, ops: seq<Op>)
    decreases |ops|
  {
    ops == [] || (Allowed(p, ops[0]) && AllAllowed(Apply(p, ops[0]), ops[1..]))
  }

  function ApplyAll(p: Net, ops: seq<Op>): (r: Net)
    requires AllAllowed(p, ops)
    ensures |r.ip| == |p.ip|
    decreases |ops|
  {
    if ops == [] then p else ApplyAll(Apply(p, ops[0]), ops[1..])
  }

  predicate Clean(p: Net) {
    Fits(p) && HostBitsZero(p.ip, p.length)
  }

  lemma ApplyClean(p: Net, op: Op)
    requires Clean(p) && Allowed(p, op)
    ensures Clean(Apply(p, op))
  {
    var i := match op case SetBit(i, _) => i case PushBack(_) => p.length;
    var v := match op case SetBit(_, v) => v case PushBack(b) => b;
    var r := Apply(p, op);
    forall j | r.length <= j < 8 * |p.ip| ensures GetBit(r.ip, j) == 0 { WithBitAt(p.ip, i, v, j); }
  }

  /** Every history of set_bit and push_back_bit keeps the host bits zero. */
  lemma {:induction false} HistoryClean(p: Net, ops: seq<Op>)
    requires Clean(p) && AllAllowed(p, ops)
    ensures Clean(ApplyAll(p, ops))
    decreases |ops|
  {
    if ops != [] {
      ApplyClean(p, ops[0]);
      HistoryClean(Apply(p, ops[0]), ops[1..]);
    }
  }

  /** The histories start clean: the empty, host and masking constructors. */
  lemma StartsClean(x: seq<byte>, len: nat, zero: seq<byte>)
    requires len <= 8 * |x| && forall i :: 0 <= i < |zero| ==> zero[i] == 0
    ensures Clean(Net(0, zero)) && Clean(Net(8 * |x|, x)) && Clean(Net(len, Masked(x, len)))
  {
    forall i | 0 <= i < 8 * |zero| ensures GetBit(zero, i) == 0 { ZeroBit(7 - i % 8); }
    HostBitsZeroIsFixpoint(x, len);
  }

  // ----- the raw overlay -----

  /** One length byte and the bytes that hold the prefix bits. */
  datatype Raw = Raw(length: nat, bytes: seq<byte>)

  function ValueSize(length: nat): (n: nat)
    ensures length <= 8 * n < length + 8
  {
    length / 8 + if length % 8 != 0 then 1 else 0
  }

  function ToRaw(p: Net): (r: Raw)
    requires Fits(p)
  {
    Raw(p.length, p.ip[..ValueSize(p.length)])
  }

  /** Reconstruction copies the value bytes into a zero address of `n` bytes. */
  function FromRaw(r: Raw, n: nat): (p: Net)
    requires |r.bytes| == ValueSize(r.length) && r.length <= 8 * n
    ensures |p.ip| == n && Fits(p)
  {
    Net(r.length, r.bytes + seq(n - |r.bytes|, _ => 0))
  }

  function RawBit(r: Raw, i: nat): nat
    requires i < r.length && |r.bytes| == ValueSize(r.length)
  {
    Bit(r.bytes[i / 8], 7 - i % 8)
  }

  lemma RawKeepsBits(p: Net, i: nat)
    requires Fits(p) && i < p.length
    ensures RawBit(ToRaw(p), i) == GetBit(p.ip, i) == GetBit(FromRaw(ToRaw(p), |p.ip|).ip, i)
  {}

  /** Reconstruction gives the prefix back exactly when the bytes past the value bytes are zero. */
  lemma RawRoundTrip(p: Net)
    requires Fits(p)
    ensures FromRaw(ToRaw(p), |p.ip|) == p <==>
            forall k :: ValueSize(p.length) <= k < |p.ip| ==> p.ip[k] == 0
    ensures Clean(p) ==> FromRaw(ToRaw(p), |p.ip|) == p
  {
    var v := ValueSize(p.length);
    var r := FromRaw(ToRaw(p), |p.ip|);
    assert forall k :: 0 <= k < v ==> r.ip[k] == p.ip[k];
    if forall k :: v <= k < |p.ip| ==> p.ip[k] == 0 {
      assert r.ip == p.ip;
    }
    if Clean(p) {
      HostBitsZeroIsFixpoint(p.ip, p.length);
      forall k | v <= k < |p.ip| ensures p.ip[k] == 0 {
        assert Masked(p.ip, p.length)[k] == MaskByte(p.ip[k], Keep(p.length, k));
        MaskByteExtremes(p.ip[k]);
      }
    }
  }
}
