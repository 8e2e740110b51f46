/** 32-bit IPv4 addresses as integers, the networks they belong to, and their dotted-quad
    text form, as Python's `ipaddress` module treats them. */
module Ipv4 {
  import opened Wrappers
  import opened Text

  const AddressSpace: nat := 0x1_0000_0000

  type Address = a: int | 0 <= a < AddressSpace

  type PrefixLength = p: int | 0 <= p <= 32

  function Pow2(k: nat): (r: nat)
    ensures r >= 1
  {
    if k == 0 then 1 else 2 * Pow2(k - 1)
  }

  lemma {:induction false} Pow2Add(a: nat, b: nat)
    ensures Pow2(a + b) == Pow2(a) * Pow2(b)
    decreases a
  {
    if a > 0 { Pow2Add(a - 1, b); }
  }

  lemma {:induction false} Pow2Monotone(a: nat, b: nat)
    requires a <= b
    ensures Pow2(a) <= Pow2(b)
    decreases b
  {
    if a < b { Pow2Monotone(a, b - 1); }
  }

  lemma Pow2Of32()
    ensures Pow2(32) == AddressSpace
  {
    assert Pow2(2) == 4;
    Pow2Add(2, 2);
    Pow2Add(4, 4);
    Pow2Add(8, 8);
    Pow2Add(16, 16);
  }

  /** Number of addresses in a network with prefix length `p`. */
  function BlockSize(p: PrefixLength): (b: nat)
    ensures 1 <= b <= AddressSpace
    ensures p <= 30 ==> b >= 4
    ensures p <= 29 ==> b >= 8
  {
    BlockSizeBounds(p);
    Pow2(32 - p)
  }

  lemma BlockSizeBounds(p: PrefixLength)
    ensures 1 <= Pow2(32 - p) <= AddressSpace
    ensures p <= 30 ==> Pow2(32 - p) >= 4
    ensures p <= 29 ==> Pow2(32 - p) >= 8
  {
    Pow2Monotone(32 - p, 32);
    Pow2Of32();
    if p <= 30 { Pow2Monotone(2, 32 - p); }
    if p <= 29 { Pow2Monotone(3, 32 - p); }
  }

  /** The netmask of prefix length `p` as a 32-bit integer. */
  function Mask(p: PrefixLength): Address
  {
    AddressSpace - BlockSize(p)
  }

  /** `n` with its low `k` bits cleared, computed by halving: `(n / 2^k) * 2^k`. */
  function RoundDown(n: nat, k: nat): nat
    decreases k
  {
    if k == 0 then n else 2 * RoundDown(n / 2, k - 1)
  }

  lemma {:induction false} RoundDownBounds(n: nat, k: nat, m: nat)
    requires k <= m && n < Pow2(m)
    ensures RoundDown(n, k) <= n < RoundDown(n, k) + Pow2(k) <= Pow2(m)
    decreases k
  {
    if k > 0 {
      RoundDownBounds(n / 2, k - 1, m - 1);
    }
  }

  /** Every value in the block `[RoundDown(n, k), RoundDown(n, k) + 2^k)` rounds down to the
      same start. */
  lemma {:induction false} RoundDownSameBlock(x: nat, n: nat, k: nat)
    requires RoundDown(n, k) <= x < RoundDown(n, k) + Pow2(k)
    ensures RoundDown(x, k) == RoundDown(n, k)
    decreases k
  {
    if k > 0 {
      RoundDownSameBlock(x / 2, n / 2, k - 1);
    }
  }

  /** `RoundDown(n, k)` is a multiple of `2^k`. */
  lemma {:induction false} RoundDownAligned(n: nat, k: nat)
    ensures RoundDown(n, k) % Pow2(k) == 0
    decreases k
  {
    if k > 0 {
      RoundDownAligned(n / 2, k - 1);
      var h := RoundDown(n / 2, k - 1);
      var q := h / Pow2(k - 1);
      assert h == q * Pow2(k - 1);
      assert RoundDown(n, k) == q * Pow2(k);
      MultipleMod(q, Pow2(k));
    }
  }

  lemma MultipleMod(q: nat, b: nat)
    requires b > 0
    ensures (q * b) % b == 0
  {
    var x := q * b;
    var r, d := x % b, x / b;
    assert x == d * b + r && 0 <= r < b;
    if d < q {
      MulDiff(q, d, b);
      MulAtLeast(q - d, b);
    } else if d > q {
      MulDiff(d, q, b);
      MulAtLeast(d - q, b);
    }
  }

  lemma MulDiff(x: nat, y: nat, b: nat)
    requires y <= x
    ensures x * b - y * b == (x - y) * b
  {
  }

  lemma {:induction false} MulAtLeast(d: nat, b: nat)
    requires d >= 1
    ensures d * b >= b
    decreases d
  {
    if d > 1 {
      MulAtLeast(d - 1, b);
      assert d * b == (d - 1) * b + b;
    }
  }

  /** The network address of `a` under prefix `p`: `a` with its host bits cleared, the only
      multiple of the block size within one block below `a` (see `NetworkUnique`). */
  function Network(a: Address, p: PrefixLength): (n: Address)
    ensures n <= a < n + BlockSize(p) <= AddressSpace
    ensures n % BlockSize(p) == 0
  {
    Pow2Of32();
    RoundDownBounds(a, 32 - p, 32);
    RoundDownAligned(a, 32 - p);
    RoundDown(a, 32 - p)
  }

  /** A block-aligned start of a block holding `a` is the network address. */
  lemma NetworkUnique(a: Address, p: PrefixLength, m: Address)
    requires m % BlockSize(p) == 0 && m <= a < m + BlockSize(p)
    ensures m == Network(a, p)
  {
    AlignedUnique(m, Network(a, p), a, BlockSize(p));
  }

  /** Two multiples of `b` within `b` of the same value below it are equal. */
  lemma AlignedUnique(m: nat, n: nat, a: nat, b: nat)
    requires b > 0 && m % b == 0 && n % b == 0
    requires m <= a < m + b && n <= a < n + b
    ensures m == n
  {
    var qm, qn := m / b, n / b;
    assert m == qm * b + m % b;
    assert n == qn * b + n % b;
    if qm < qn {
      MulDiff(qn, qm, b);
      MulAtLeast(qn - qm, b);
    } else if qm > qn {
      MulDiff(qm, qn, b);
      MulAtLeast(qm - qn, b);
    }
  }

  /** The broadcast (last) address of the network `a` belongs to under prefix `p`. */
  function Broadcast(a: Address, p: PrefixLength): (r: Address)
    ensures Network(a, p) <= a <= r
    ensures r - Network(a, p) == BlockSize(p) - 1
  {
    Network(a, p) + BlockSize(p) - 1
  }

  /** `x in IPv4Network(a/p, strict=False).hosts()`: `x` lies strictly between the network and
      broadcast addresses. Prefixes /31 and /32, where `hosts()` differs between Python versions,
      are outside the model. */
  predicate IsHost(x: int, a: Address, p: PrefixLength)
    requires p <= 30
  {
    Network(a, p) < x < Broadcast(a, p)
  }

  /** Addresses in the same network have the same network address. */
  lemma SameNetwork(x: Address, a: Address, p: PrefixLength)
    requires Network(a, p) <= x <= Broadcast(a, p)
    ensures Network(x, p) == Network(a, p)
  {
    RoundDownSameBlock(x, a, 32 - p);
  }

  /** The bits of `n`, most significant first, `k` of them. */
  function ToBits(n: nat, k: nat): (bits: seq<bool>)
    ensures |bits| == k
    decreases k
  {
    if k == 0 then [] else ToBits(n / 2, k - 1) + [n % 2 == 1]
  }

  /** The netmask of `/p` has exactly its top `p` bits set. */
  lemma MaskBits(p: PrefixLength)
    ensures ToBits(Mask(p), 32) == seq(32, i => i < p)
  {
    Pow2Of32();
    Pow2Monotone(32 - p, 32);
    var m := Pow2(32) - Pow2(32 - p);
    assert Mask(p) == m;
    TopBits(p, 32);
  }

  lemma {:induction false} TopBits(p: nat, k: nat)
    requires p <= k && Pow2(k - p) <= Pow2(k)
    ensures ToBits(Pow2(k) - Pow2(k - p), k) == seq(k, i => i < p)
    decreases k
  {
    if k > 0 {
      var n := Pow2(k) - Pow2(k - p);
      if p < k {
        assert n == 2 * (Pow2(k - 1) - Pow2(k - 1 - p));
        Pow2Monotone(k - 1 - p, k - 1);
        TopBits(p, k - 1);
      } else {
        assert n == 2 * (Pow2(k - 1) - 1) + 1;
        assert Pow2(k - 1 - (k - 1)) == 1;
        TopBits(k - 1, k - 1);
      }
      assert ToBits(n, k) == seq(k, i => i < p);
    }
  }

  /** A longer prefix never gives a numerically smaller netmask. */
  lemma MaskMonotone(p: PrefixLength, q: PrefixLength)
    requires p <= q
    ensures Mask(p) <= Mask(q)
  {
    Pow2Monotone(32 - q, 32 - p);
  }

  /** The four octets of an address, most significant first. */
  function Octets(a: Address): (o: seq<nat>)
    ensures |o| == 4 && forall i :: 0 <= i < 4 ==> o[i] < 256
  {
    [a / 16777216, a / 65536 % 256, a / 256 % 256, a % 256]
  }

  function FromOctets(o: seq<nat>): Address
    requires |o| == 4 && forall i :: 0 <= i < 4 ==> o[i] < 256
  {
    o[0] * 16777216 + o[1] * 65536 + o[2] * 256 + o[3]
  }

  lemma OctetsRoundTrip(a: Address)
    ensures FromOctets(Octets(a)) == a
  {
    var q1 := a / 256;
    var q2 := q1 / 256;
    assert q1 / 256 == a / 65536 && q2 / 256 == a / 16777216;
    assert a == q1 * 256 + a % 256;
    assert q1 == q2 * 256 + q1 % 256;
    assert q2 == a / 16777216 * 256 + q2 % 256;
  }

  lemma FromOctetsRoundTrip(o: seq<nat>)
    requires |o| == 4 && forall i :: 0 <= i < 4 ==> o[i] < 256
    ensures Octets(FromOctets(o)) == o
  {
    var a := FromOctets(o);
    assert a / 16777216 == o[0];
    assert a % 16777216 == o[1] * 65536 + o[2] * 256 + o[3];
    assert a / 65536 == o[0] * 256 + o[1];
    assert a / 256 == o[0] * 65536 + o[1] * 256 + o[2];
  }

  /** `str(IPv4Address(a))`: four decimal octets joined by dots. */
  function Dotted(a: Address): string
  {
    Join(OctetTexts(a, 4), ".")
  }

  /** The decimal texts of the last `n` octets of `a`, most significant first. */
  function OctetTexts(a: nat, n: nat): (r: seq<string>)
    ensures |r| == n
  {
    if n == 0 then [] else OctetTexts(a / 256, n - 1) + [NatToString(a % 256)]
  }

  /** The dotted form is the four octets of `Octets`, in order. */
  lemma DottedParts(a: Address)
    ensures Dotted(a) == Join([NatToString(Octets(a)[0]), NatToString(Octets(a)[1]),
                               NatToString(Octets(a)[2]), NatToString(Octets(a)[3])], ".")
  {
    var o := Octets(a);
    assert a / 256 / 256 == a / 65536;
    assert a / 65536 / 256 == a / 16777216;
    assert a / 16777216 / 256 == 0;
    assert OctetTexts(a / 16777216, 1) == [NatToString(o[0])];
    assert OctetTexts(a / 65536, 2) == [NatToString(o[0]), NatToString(o[1])];
    assert OctetTexts(a / 256, 3) == [NatToString(o[0]), NatToString(o[1]), NatToString(o[2])];
    assert OctetTexts(a, 4) == [NatToString(o[0]), NatToString(o[1]), NatToString(o[2]), NatToString(o[3])];
  }

  /** One octet as `IPv4Address` accepts it: one to three ASCII digits, no leading zero,
      value at most 255. */
  function ParseOctet(t: string): (r: Option<nat>)
    ensures r.Some? ==> r.value < 256
  {
    if t == [] || |t| > 3 || !AllDigits(t) || (t[0] == '0' && |t| > 1) then None
    else if ParseNat(t) > 255 then None
    else Some(ParseNat(t))
  }

  /** Every part read as an octet, in order; `None` as soon as one is not an octet. */
  function ParseOctets(parts: seq<string>): (r: Option<seq<nat>>)
    ensures r.Some? ==> |r.value| == |parts| && forall i :: 0 <= i < |parts| ==> r.value[i] < 256
    decreases |parts|
  {
    if parts == [] then Some([])
    else
      var init := ParseOctets(parts[..|parts| - 1]);
      var last := ParseOctet(parts[|parts| - 1]);
      if init.None? || last.None? then None else Some(init.value + [last.value])
  }

  lemma {:induction false} ParseOctetsAt(parts: seq<string>)
    ensures ParseOctets(parts).Some? <==> forall i :: 0 <= i < |parts| ==> ParseOctet(parts[i]).Some?
    ensures ParseOctets(parts).Some? ==>
      forall i :: 0 <= i < |parts| ==> ParseOctets(parts).value[i] == ParseOctet(parts[i]).value
    decreases |parts|
  {
    if parts != [] {
      var init := parts[..|parts| - 1];
      ParseOctetsAt(init);
      assert forall i :: 0 <= i < |init| ==> init[i] == parts[i];
    }
  }

  /** `IPv4Address(s)`: `None` where Python raises `AddressValueError`. */
  function ParseDotted(s: string): Option<Address>
  {
    var parts := Split(s, '.');
    if |parts| != 4 then None
    else
      var octets := ParseOctets(parts);
      if octets.None? then None else Some(FromOctets(octets.value))
  }

  lemma ParseOctetOfString(n: nat)
    requires n < 256
    ensures ParseOctet(NatToString(n)) == Some(n)
  {
    NatToStringLength(n);
    ParseNatToString(n);
  }

  lemma {:induction false} ParseNatZero(t: string)
    requires AllDigits(t) && ParseNat(t) == 0
    ensures forall i :: 0 <= i < |t| ==> t[i] == '0'
    decreases |t|
  {
    if t != [] {
      ParseNatZero(t[..|t| - 1]);
      assert forall i :: 0 <= i < |t| - 1 ==> t[i] == t[..|t| - 1][i];
    }
  }

  /** A digit string without a leading zero is the decimal form of its value. */
  lemma {:induction false} CanonicalDigits(t: string)
    requires t != [] && AllDigits(t) && (t[0] == '0' ==> |t| == 1)
    ensures NatToString(ParseNat(t)) == t
    decreases |t|
  {
    if |t| == 1 {
      assert t[..0] == [];
    } else {
      var u := t[..|t| - 1];
      assert u[0] == t[0];
      CanonicalDigits(u);
      if ParseNat(u) == 0 { ParseNatZero(u); }
      var n := ParseNat(t);
      assert n == 10 * ParseNat(u) + DigitValue(t[|t| - 1]);
      assert n / 10 == ParseNat(u) && n % 10 == DigitValue(t[|t| - 1]);
      assert t == u + [t[|t| - 1]];
    }
  }

  /** An octet that parses is written in its decimal form. */
  lemma ParseOctetCanonical(t: string)
    requires ParseOctet(t).Some?
    ensures t == NatToString(ParseOctet(t).value)
  {
    CanonicalDigits(t);
  }

  /** Dotted text parses back to its address. */
  lemma ParseDottedRoundTrip(a: Address)
    ensures ParseDotted(Dotted(a)) == Some(a)
  {
    var o := Octets(a);
    var parts := [NatToString(o[0]), NatToString(o[1]), NatToString(o[2]), NatToString(o[3])];
    DottedParts(a);
    assert forall i :: 0 <= i < 4 ==> AllDigits(parts[i]);
    SplitJoin(parts, '.');
    ParseOctetOfString(o[0]);
    ParseOctetOfString(o[1]);
    ParseOctetOfString(o[2]);
    ParseOctetOfString(o[3]);
    ParseOctetsAt(parts);
    assert ParseOctets(parts).value == o;
    OctetsRoundTrip(a);
  }

  /** `IPv4Address` accepts exactly the dotted form of an address, and reads it as that address. */
  lemma ParseDottedExactly(s: string, a: Address)
    ensures ParseDotted(s) == Some(a) <==> s == Dotted(a)
  {
    if s == Dotted(a) {
      ParseDottedRoundTrip(a);
    }
    if ParseDotted(s) == Some(a) {
      var parts := Split(s, '.');
      ParseOctetsAt(parts);
      var o := ParseOctets(parts).value;
      assert o == [ParseOctet(parts[0]).value, ParseOctet(parts[1]).value,
                   ParseOctet(parts[2]).value, ParseOctet(parts[3]).value];
      ParseOctetCanonical(parts[0]);
      ParseOctetCanonical(parts[1]);
      ParseOctetCanonical(parts[2]);
      ParseOctetCanonical(parts[3]);
      FromOctetsRoundTrip(o);
      DottedParts(a);
      JoinSplit(s, '.');
      assert parts == [parts[0], parts[1], parts[2], parts[3]];
    }
  }
}
