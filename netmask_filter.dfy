/** The `dotted_decimal` template filter of the custom-filter configuration generator: a prefix
    length rendered as a dotted-decimal netmask. */
module NetmaskFilter {
  import opened Wrappers
  import opened Text
  import opened Ipv4

  function InvalidValue(prefixLength: int): string
  {
    "[INVALID VALUE(" + IntToString(prefixLength) + ")]"
  }

  /** `dotted_decimal(prefix_length)` for an integer argument. `IPv4Network("0.0.0.0/<p>")`
      accepts exactly the prefix lengths 0..32; every other value is caught by the `except`
      and rendered as the invalid-value marker, so the filter never raises. A valid result is
      the dotted form of the address whose top `p` bits are set and whose other bits are clear. */
  function DottedDecimal(prefixLength: int): (r: string)
    ensures 0 <= prefixLength <= 32 ==>
      ParseDotted(r).Some? && ToBits(ParseDotted(r).value, 32) == seq(32, i => i < prefixLength)
    ensures !(0 <= prefixLength <= 32) ==> ParseDotted(r).None? && r == InvalidValue(prefixLength)
  {
    if 0 <= prefixLength <= 32 then
      ParseDottedRoundTrip(Mask(prefixLength));
      MaskBits(prefixLength);
      Dotted(Mask(prefixLength))
    else
      InvalidNeverParses(prefixLength);
      InvalidValue(prefixLength)
  }

  lemma InvalidNeverParses(prefixLength: int)
    ensures ParseDotted(InvalidValue(prefixLength)).None?
  {
    var s := InvalidValue(prefixLength);
    var digits := IntToString(prefixLength);
    assert forall i :: 0 <= i < |digits| ==> digits[i] == '-' || IsDigit(digits[i]);
    assert '.' !in s;
  }

  /** The two ends of the range: `/0` is `0.0.0.0` and `/32` is `255.255.255.255`. */
  lemma DottedDecimalZero()
    ensures DottedDecimal(0) == "0.0.0.0"
  {
    MaskZero();
    ZeroText();
  }

  lemma MaskZero()
    ensures DottedDecimal(0) == Dotted(0)
  {
    Pow2Of32();
    assert Mask(0) == 0;
  }

  lemma ZeroText()
    ensures Dotted(0) == "0.0.0.0"
  {
    DottedParts(0);
    assert Dotted(0) == Join([NatToString(0), NatToString(0), NatToString(0), NatToString(0)], ".");
  }

  lemma DottedDecimalThirtyTwo()
    ensures DottedDecimal(32) == "255.255.255.255"
  {
    MaskThirtyTwo();
    AllOnesText();
  }

  lemma MaskThirtyTwo()
    ensures DottedDecimal(32) == Dotted(AddressSpace - 1)
  {
    assert Mask(32) == AddressSpace - 1;
  }

  lemma AllOnesText()
    ensures Dotted(AddressSpace - 1) == "255.255.255.255"
  {
    var t := NatToString(255);
    DecimalTwoFiftyFive();
    assert Octets(AddressSpace - 1) == [255, 255, 255, 255];
    DottedParts(AddressSpace - 1);
    assert Dotted(AddressSpace - 1) == Join([t, t, t, t], ".");
    JoinFour(t, t, t, t, ".");
  }

  lemma DecimalTwoFiftyFive()
    ensures NatToString(255) == "255"
  {
    assert NatToString(2) == "2";
    assert NatToString(25) == NatToString(2) + "5";
  }

  lemma JoinFour(a: string, b: string, c: string, d: string, sep: string)
    ensures Join([a, b, c, d], sep) == a + sep + b + sep + c + sep + d
  {
    assert [a, b, c, d][1..] == [b, c, d];
    assert [b, c, d][1..] == [c, d];
    assert [c, d][1..] == [d];
    assert Join([c, d], sep) == c + sep + d;
    assert Join([b, c, d], sep) == b + sep + (c + sep + d);
    assert Join([a, b, c, d], sep) == a + sep + (b + sep + (c + sep + d));
  }

  /** A longer prefix gives a numerically larger-or-equal netmask. */
  lemma DottedDecimalMonotone(p: int, q: int)
    requires 0 <= p <= q <= 32
    ensures ParseDotted(DottedDecimal(p)).value <= ParseDotted(DottedDecimal(q)).value
  {
    ParseDottedRoundTrip(Mask(p));
    ParseDottedRoundTrip(Mask(q));
    MaskMonotone(p, q);
  }
}
