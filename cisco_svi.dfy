/** The VLAN interfaces (SVIs) that both the HSRP planner and the static-ARP migration read out of
    a Cisco IOS configuration, and the way both scripts derive names from the interface line. */
module CiscoSvi {
  import opened Text
  import opened Ipv4

  /** One `interface Vlan<N>` section that has an `ip address` child, as the configuration
      parser reports it: the section's first line and the address and prefix length of the
      `ip address <addr> <mask>` line. */
  datatype SviInterface = SviInterface(text: string, address: Address, prefixLength: PrefixLength)

  const InterfaceChars: set<char> := {'i', 'n', 't', 'e', 'r', 'f', 'a', 'c', ' '}

  const VlanChars: set<char> := {'V', 'l', 'a', 'n'}

  /** `text.lstrip("interface ")` */
  function InterfaceName(text: string): string
  {
    LStripChars(text, InterfaceChars)
  }

  /** `text.lstrip("interface ").lstrip("Vlan")` */
  function VlanId(text: string): string
  {
    LStripChars(InterfaceName(text), VlanChars)
  }

  lemma {:induction false} LStripPrefix(p: string, rest: string, chars: set<char>)
    requires forall i :: 0 <= i < |p| ==> p[i] in chars
    requires rest == [] || rest[0] !in chars
    ensures LStripChars(p + rest, chars) == rest
    decreases |p|
  {
    if p == [] {
      assert p + rest == rest;
    } else {
      assert (p + rest)[1..] == p[1..] + rest;
      LStripPrefix(p[1..], rest, chars);
    }
  }

  /** For the lines the parser selects, `interface Vlan<digits>`, the two character-set strips
      give `Vlan<digits>` and `<digits>`. */
  lemma NamesOfVlanLine(digits: string)
    requires AllDigits(digits)
    ensures InterfaceName("interface Vlan" + digits) == "Vlan" + digits
    ensures VlanId("interface Vlan" + digits) == digits
  {
    assert "interface Vlan" + digits == "interface " + ("Vlan" + digits);
    LStripPrefix("interface ", "Vlan" + digits, InterfaceChars);
    LStripPrefix("Vlan", digits, VlanChars);
  }
}
