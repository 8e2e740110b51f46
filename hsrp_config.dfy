/** The HSRP planner: for every SVI of an existing switch, a primary and a secondary switch
    configuration in which the SVI's current address becomes the HSRP virtual address and the two
    switches take the neighbouring addresses. */
module HsrpConfig {
  import opened Wrappers
  import opened Text
  import opened Ipv4
  import opened CiscoSvi

  datatype Role = Primary | Secondary

  /** The exception that ends the script: `ipv4_addr.ip_object + 1` at line 59 raises
      `AddressValueError` for an SVI on 255.255.255.255, naming no interface; the error here
      carries that SVI's interface line. */
  datatype HsrpError = AddressOverflow(text: string)

  /** Prefixes up to /30, the range in which `hosts()` is modelled. */
  predicate AllPlannable(svis: seq<SviInterface>) {
    forall i :: 0 <= i < |svis| ==> svis[i].prefixLength <= 30
  }

  /** An SVI the loop body gets through: `hosts()` is modelled for its prefix, and the address
      after its own exists. */
  predicate Renderable(svi: SviInterface) {
    svi.prefixLength <= 30 && svi.address + 1 < AddressSpace
  }

  predicate AllRenderable(svis: seq<SviInterface>) {
    forall i :: 0 <= i < |svis| ==> Renderable(svis[i])
  }

  /** The address pair chosen for the primary and the secondary switch. Only SVI+1 is tested
      against the host range: when it is usable the pair is SVI+1, SVI+2, otherwise SVI-1, SVI-2.
      Both stay inside the SVI's network and the primary is always usable; the secondary is the
      broadcast address exactly when the SVI sits on the second-to-last address. */
  function PeerAddresses(svi: Address, p: PrefixLength): (Address, Address)
    requires p <= 30 && svi + 1 < AddressSpace
  {
    if IsHost(svi + 1, svi, p) then (svi + 1, svi + 2) else (svi - 1, svi - 2)
  }

  lemma PeerAddressesSpec(svi: Address, p: PrefixLength)
    requires p <= 30 && svi + 1 < AddressSpace
    ensures var r := PeerAddresses(svi, p);
      Network(svi, p) <= r.0 <= Broadcast(svi, p) && Network(svi, p) <= r.1 <= Broadcast(svi, p)
      && (r.0 == svi + 1 <==> IsHost(svi + 1, svi, p))
      && (r.0 == svi + 1 || r.0 == svi - 1) && r.1 - svi == 2 * (r.0 - svi)
      && IsHost(r.0, svi, p)
      && (r.1 == Broadcast(svi, p) <==> svi == Broadcast(svi, p) - 2)
      && (p <= 29 ==> (IsHost(r.1, svi, p) <==> svi != Broadcast(svi, p) - 2))
  {
  }

  /** The strings the loop body derives from one SVI before it writes any line. */
  datatype SviText = SviText(name: string, vlan: string, virtualIp: string, netmask: string,
                             primaryIp: string, secondaryIp: string)

  function Render(svi: SviInterface): SviText
    requires Renderable(svi)
  {
    var pair := PeerAddresses(svi.address, svi.prefixLength);
    SviText(InterfaceName(svi.text), VlanId(svi.text), Dotted(svi.address),
            Dotted(Mask(svi.prefixLength)), Dotted(pair.0), Dotted(pair.1))
  }

  function RenderAll(svis: seq<SviInterface>): (r: seq<SviText>)
    requires AllRenderable(svis)
    ensures |r| == |svis|
    decreases |svis|
  {
    if svis == [] then [] else RenderAll(svis[..|svis| - 1]) + [Render(svis[|svis| - 1])]
  }

  /** The fixed text of the generated lines (lines 44-83). */
  const InterfaceLead := "interface "
  const DescriptionLead := " description *** VLAN SVI "
  const AddressLead := " ip address "
  const StandbyVersion := " standby version 2"
  const StandbyIpLead := " standby 1 ip "
  const PrimaryPriority := " standby 1 priority 255"
  const SecondaryPriority := " standby 1 priority 254"
  const AuthenticationLead := " standby 1 authentication md5 key-string vl"
  const PrimaryTitle := "! primary switch interface configuration"
  const SecondaryTitle := "! secondary switch interface configuration"

  function Header(role: Role): seq<string> {
    match role
      case Primary => ["!", PrimaryTitle, "!"]
      case Secondary => ["!", SecondaryTitle, "!"]
  }

  /** The eight lines one SVI contributes to the configuration of `role`. */
  function Block(t: SviText, role: Role): (lines: seq<string>)
    ensures |lines| == 8
  {
    [ InterfaceLead + t.name,
      DescriptionLead + t.vlan,
      AddressLead + (if role == Primary then t.primaryIp else t.secondaryIp) + " " + t.netmask,
      StandbyVersion,
      StandbyIpLead + t.virtualIp,
      if role == Primary then PrimaryPriority else SecondaryPriority,
      AuthenticationLead + t.vlan,
      "!" ]
  }

  function Blocks(ts: seq<SviText>, role: Role): seq<string>
    decreases |ts|
  {
    if ts == [] then [] else Blocks(ts[..|ts| - 1], role) + Block(ts[|ts| - 1], role)
  }

  /** The whole change script for `role`: a three-line header, then one block per SVI. */
  function Config(svis: seq<SviInterface>, role: Role): seq<string>
    requires AllRenderable(svis)
  {
    Header(role) + Blocks(RenderAll(svis), role)
  }

  /** The first SVI on 255.255.255.255, if any. */
  function FirstTop(svis: seq<SviInterface>): (r: Option<nat>)
    ensures r.Some? ==>
      r.value < |svis| && svis[r.value].address + 1 == AddressSpace
      && forall j :: 0 <= j < r.value ==> svis[j].address + 1 < AddressSpace
    ensures r.None? ==> forall j :: 0 <= j < |svis| ==> svis[j].address + 1 < AddressSpace
    decreases |svis|
  {
    if svis == [] then None
    else if svis[0].address + 1 == AddressSpace then Some(0)
    else
      var rest := FirstTop(svis[1..]);
      if rest.None? then None else Some(rest.value + 1)
  }

  /** Lines 44-83 as a value: both configurations, or the error of the first SVI whose
      successor address does not exist. The script saves nothing when it raises. */
  function Plan(svis: seq<SviInterface>): (r: Result<(seq<string>, seq<string>), HsrpError>)
    requires AllPlannable(svis)
    ensures r.Ok? <==> AllRenderable(svis)
    ensures r.Err? ==>
      exists k :: 0 <= k < |svis| && svis[k].address + 1 == AddressSpace
        && r.error == AddressOverflow(svis[k].text)
        && forall j :: 0 <= j < k ==> svis[j].address + 1 < AddressSpace
  {
    match FirstTop(svis)
      case Some(k) => Err(AddressOverflow(svis[k].text))
      case None => Ok((Config(svis, Primary), Config(svis, Secondary)))
  }

  /** Lines 44-83: both configurations, built in SVI order; an SVI on 255.255.255.255 ends
      the loop with the error. */
  method GenerateConfigs(svis: seq<SviInterface>)
      returns (result: Result<(seq<string>, seq<string>), HsrpError>)
    requires AllPlannable(svis)
    ensures result == Plan(svis)
  {
    var primary := ["!", PrimaryTitle, "!"];
    var secondary := ["!", SecondaryTitle, "!"];
    var i := 0;
    while i < |svis|
      invariant 0 <= i <= |svis|
      invariant AllRenderable(svis[..i])
      invariant primary == Config(svis[..i], Primary) && secondary == Config(svis[..i], Secondary)
    {
      if svis[i].address + 1 == AddressSpace {
        // line 59: `ipv4_addr.ip_object + 1` raises before the `hosts()` test
        FirstTopAt(svis, i);
        return Err(AddressOverflow(svis[i].text));
      }
      primary, secondary := AppendSvi(primary, secondary, svis[i]);
      assert svis[..i + 1] == svis[..i] + [svis[i]];
      ConfigSnoc(svis[..i], svis[i], Primary);
      ConfigSnoc(svis[..i], svis[i], Secondary);
      i := i + 1;
    }
    assert svis[..i] == svis;
    return Ok((primary, secondary));
  }

  /** An SVI on 255.255.255.255 with none before it is the one the error names. */
  lemma FirstTopAt(svis: seq<SviInterface>, i: nat)
    requires i < |svis| && svis[i].address + 1 == AddressSpace
    requires AllRenderable(svis[..i])
    ensures FirstTop(svis) == Some(i)
  {
    assert forall j :: 0 <= j < i ==> svis[..i][j] == svis[j];
  }

  /** Lines 45-83, the body of the loop: derive the names and addresses of one SVI and append
      its eight lines to each change script. */
  method AppendSvi(primary: seq<string>, secondary: seq<string>, svi: SviInterface)
      returns (primary': seq<string>, secondary': seq<string>)
    requires Renderable(svi)
    ensures primary' == primary + Block(Render(svi), Primary)
    ensures secondary' == secondary + Block(Render(svi), Secondary)
  {
    var name := InterfaceName(svi.text);
    var vlan := VlanId(svi.text);
    var virtual := svi.address;
    var primaryIp: Address, secondaryIp: Address;
    if IsHost(svi.address + 1, svi.address, svi.prefixLength) {
      primaryIp := svi.address + 1;
      secondaryIp := svi.address + 2;
    } else {
      primaryIp := svi.address - 1;
      secondaryIp := svi.address - 2;
    }
    assert (primaryIp, secondaryIp) == PeerAddresses(svi.address, svi.prefixLength);
    var netmask := Dotted(Mask(svi.prefixLength));
    ghost var t := SviText(name, vlan, Dotted(virtual), netmask, Dotted(primaryIp), Dotted(secondaryIp));
    assert t == Render(svi);
    // each script receives the eight `append_line` calls as one concatenation
    primary' := primary +
      [ InterfaceLead + name,
        DescriptionLead + vlan,
        AddressLead + Dotted(primaryIp) + " " + netmask,
        StandbyVersion,
        StandbyIpLead + Dotted(virtual),
        PrimaryPriority,
        AuthenticationLead + vlan,
        "!" ];
    secondary' := secondary +
      [ InterfaceLead + name,
        DescriptionLead + vlan,
        AddressLead + Dotted(secondaryIp) + " " + netmask,
        StandbyVersion,
        StandbyIpLead + Dotted(virtual),
        SecondaryPriority,
        AuthenticationLead + vlan,
        "!" ];
  }

  /** Handling one more SVI appends exactly its block. */
  lemma ConfigSnoc(svis: seq<SviInterface>, svi: SviInterface, role: Role)
    requires AllRenderable(svis) && Renderable(svi)
    ensures AllRenderable(svis + [svi])
    ensures Config(svis + [svi], role) == Config(svis, role) + Block(Render(svi), role)
  {
    RenderAllSnoc(svis, svi);
    BlocksSnoc(RenderAll(svis), Render(svi), role);
  }

  lemma RenderAllSnoc(svis: seq<SviInterface>, svi: SviInterface)
    requires AllRenderable(svis) && Renderable(svi)
    ensures AllRenderable(svis + [svi])
    ensures RenderAll(svis + [svi]) == RenderAll(svis) + [Render(svi)]
  {
    var all := svis + [svi];
    assert forall j :: 0 <= j < |svis| ==> all[j] == svis[j];
    assert all[..|all| - 1] == svis;
  }

  lemma BlocksSnoc(ts: seq<SviText>, t: SviText, role: Role)
    ensures Blocks(ts + [t], role) == Blocks(ts, role) + Block(t, role)
  {
    assert (ts + [t])[..|ts|] == ts;
  }

  lemma {:induction false} BlocksAt(ts: seq<SviText>, role: Role, k: nat)
    ensures |Blocks(ts, role)| == 8 * |ts|
    ensures k < |ts| ==> Blocks(ts, role)[8 * k..8 * k + 8] == Block(ts[k], role)
    decreases |ts|
  {
    if ts != [] {
      var init := ts[..|ts| - 1];
      var last := Block(ts[|ts| - 1], role);
      assert Blocks(ts, role) == Blocks(init, role) + last;
      BlocksAt(init, role, k);
      if k < |init| {
        assert init[k] == ts[k];
        SliceBefore(Blocks(init, role), last, 8 * k, 8 * k + 8);
      } else if k == |init| {
        SliceAfter(Blocks(init, role), last, 0, 8);
        assert last[0..8] == last;
      }
    }
  }

  lemma {:induction false} RenderAllAt(svis: seq<SviInterface>, k: nat)
    requires AllRenderable(svis) && k < |svis|
    ensures RenderAll(svis)[k] == Render(svis[k])
    decreases |svis|
  {
    var init := svis[..|svis| - 1];
    assert RenderAll(svis) == RenderAll(init) + [Render(svis[|svis| - 1])];
    if k < |init| {
      assert init[k] == svis[k];
      RenderAllAt(init, k);
    }
  }

  lemma SliceBefore<T>(a: seq<T>, b: seq<T>, i: nat, j: nat)
    requires i <= j <= |a|
    ensures (a + b)[i..j] == a[i..j]
  {
  }

  lemma SliceAfter<T>(h: seq<T>, b: seq<T>, i: nat, j: nat)
    requires i <= j <= |b|
    ensures (h + b)[|h| + i..|h| + j] == b[i..j]
  {
  }

  lemma HeaderBlocksAt(ts: seq<SviText>, role: Role, k: nat)
    ensures |Header(role) + Blocks(ts, role)| == 3 + 8 * |ts|
    ensures k < |ts| ==> (Header(role) + Blocks(ts, role))[3 + 8 * k..3 + 8 * k + 8] == Block(ts[k], role)
  {
    BlocksAt(ts, role, k);
    if k < |ts| {
      SliceAfter(Header(role), Blocks(ts, role), 8 * k, 8 * k + 8);
    }
  }

  /** Every SVI adds exactly eight lines after the three-line header, and the lines of SVI
      number `k` sit at offset 3 + 8k, in SVI order. */
  lemma ConfigBlockAt(svis: seq<SviInterface>, role: Role, k: nat)
    requires AllRenderable(svis)
    ensures |Config(svis, role)| == 3 + 8 * |svis|
    ensures k < |svis| ==> Config(svis, role)[3 + 8 * k..3 + 8 * k + 8] == Block(Render(svis[k]), role)
  {
    HeaderBlocksAt(RenderAll(svis), role, k);
    if k < |svis| {
      RenderAllAt(svis, k);
    }
  }

  /** The primary and the secondary block of an SVI differ only in the address line and the
      priority line; there each switch carries its own address and the primary the higher
      priority. */
  lemma BlocksDifferOnlyInAddressAndPriority(t: SviText, j: nat)
    requires j < 8
    ensures j != 2 && j != 5 ==> Block(t, Primary)[j] == Block(t, Secondary)[j]
    ensures Block(t, Primary)[5] == PrimaryPriority
    ensures Block(t, Secondary)[5] == SecondaryPriority
    ensures t.primaryIp != t.secondaryIp ==> Block(t, Primary)[2] != Block(t, Secondary)[2]
  {
    MiddleDiffers(AddressLead, t.primaryIp, t.secondaryIp, " " + t.netmask);
    assert Block(t, Primary)[2] == AddressLead + t.primaryIp + (" " + t.netmask);
    assert Block(t, Secondary)[2] == AddressLead + t.secondaryIp + (" " + t.netmask);
  }

  lemma MiddleDiffers(x: string, p: string, q: string, y: string)
    ensures x + p + y == x + q + y ==> p == q
  {
    if x + p + y == x + q + y {
      assert (x + p + y)[|x|..|x| + |p|] == p;
      assert (x + q + y)[|x|..|x| + |q|] == q;
    }
  }

  /** The two switches of a pair always get different addresses. */
  lemma PeersDiffer(svi: SviInterface)
    requires Renderable(svi)
    ensures Render(svi).primaryIp != Render(svi).secondaryIp
  {
    var pair := PeerAddresses(svi.address, svi.prefixLength);
    PeerAddressesSpec(svi.address, svi.prefixLength);
    ParseDottedRoundTrip(pair.0);
    ParseDottedRoundTrip(pair.1);
  }

  lemma DottedNoSpace(a: Address)
    ensures Dotted(a) != [] && NoSpace(Dotted(a))
  {
    var o := Octets(a);
    var parts := [NatToString(o[0]), NatToString(o[1]), NatToString(o[2]), NatToString(o[3])];
    DottedParts(a);
    JoinNoSpace(parts, ".");
  }

  lemma {:induction false} JoinNoSpace(parts: seq<string>, sep: string)
    requires NoSpace(sep)
    requires forall i :: 0 <= i < |parts| ==> parts[i] != [] && AllDigits(parts[i])
    ensures NoSpace(Join(parts, sep))
    ensures |parts| > 0 ==> Join(parts, sep) != []
    decreases |parts|
  {
    if |parts| > 1 { JoinNoSpace(parts[1..], sep); }
  }

  lemma AddressLineTokens(a: string, m: string)
    requires a != [] && NoSpace(a) && m != [] && NoSpace(m)
    ensures SplitWhitespace(AddressLead + a + " " + m) == ["ip", "address", a, m]
  {
    var tokens := ["ip", "address", a, m];
    JoinCons("ip", ["address", a, m], " ");
    JoinCons("address", [a, m], " ");
    JoinCons(a, [m], " ");
    var joined := Join(tokens, " ");
    assert AddressLead + a + " " + m == " " + joined;
    assert forall i :: 0 <= i < 4 ==> tokens[i] != [] && NoSpace(tokens[i]);
    SplitWhitespaceJoin(tokens);
    assert IsSpace((" " + joined)[0]) && (" " + joined)[1..] == joined;
  }

  /** What an HSRP pair needs from the address line: split on whitespace it reads `ip address
      <own> <netmask>`, the netmask is the SVI's, and the switch's own address is one (primary)
      or two (secondary) steps away from the virtual address, on the side the primary took. */
  lemma AddressLineReadBack(svi: SviInterface, role: Role)
    requires Renderable(svi)
    ensures var pair := PeerAddresses(svi.address, svi.prefixLength);
      var own := if role == Primary then pair.0 else pair.1;
      SplitWhitespace(Block(Render(svi), role)[2]) == ["ip", "address", Dotted(own), Dotted(Mask(svi.prefixLength))]
      && ParseDotted(Dotted(own)) == Some(own)
      && ParseDotted(Dotted(Mask(svi.prefixLength))) == Some(Mask(svi.prefixLength))
      && own - svi.address == (if role == Primary then 1 else 2) * (pair.0 - svi.address)
  {
    var pair := PeerAddresses(svi.address, svi.prefixLength);
    var own := if role == Primary then pair.0 else pair.1;
    PeerAddressesSpec(svi.address, svi.prefixLength);
    DottedNoSpace(own);
    DottedNoSpace(Mask(svi.prefixLength));
    AddressLineSplits(Render(svi), role);
    ParseDottedRoundTrip(own);
    ParseDottedRoundTrip(Mask(svi.prefixLength));
  }

  lemma AddressLineSplits(t: SviText, role: Role)
    requires var own := if role == Primary then t.primaryIp else t.secondaryIp;
      own != [] && NoSpace(own) && t.netmask != [] && NoSpace(t.netmask)
    ensures SplitWhitespace(Block(t, role)[2])
      == ["ip", "address", if role == Primary then t.primaryIp else t.secondaryIp, t.netmask]
  {
    AddressLineTokens(if role == Primary then t.primaryIp else t.secondaryIp, t.netmask);
  }

  /** The standby line carries the SVI's own address as the virtual address. */
  lemma StandbyLineReadBack(svi: SviInterface, role: Role)
    requires Renderable(svi)
    ensures Block(Render(svi), role)[4] == StandbyIpLead + Dotted(svi.address)
    ensures ParseDotted(Dotted(svi.address)) == Some(svi.address)
  {
    ParseDottedRoundTrip(svi.address);
  }

  /** For the interface lines the parser selects, the block starts with the SVI's own interface
      line and the authentication key is `vl` followed by the VLAN number. */
  lemma BlockNamesOfVlanLine(svi: SviInterface, role: Role, digits: string)
    requires Renderable(svi) && AllDigits(digits) && svi.text == "interface Vlan" + digits
    ensures Block(Render(svi), role)[0] == svi.text
    ensures Block(Render(svi), role)[1] == DescriptionLead + digits
    ensures Block(Render(svi), role)[6] == AuthenticationLead + digits
  {
    var t := Render(svi);
    NamesOfVlanLine(digits);
    assert t.name == "Vlan" + digits && t.vlan == digits;
    BlockNameLines(t, role);
    assert InterfaceLead + t.name == svi.text;
  }

  lemma BlockNameLines(t: SviText, role: Role)
    ensures Block(t, role)[0] == InterfaceLead + t.name
    ensures Block(t, role)[1] == DescriptionLead + t.vlan
    ensures Block(t, role)[6] == AuthenticationLead + t.vlan
  {
  }

  /** Testing only SVI+1 lets the secondary switch take the broadcast address: in every network,
      an SVI on the second-to-last address gets the last host as primary and the broadcast
      address as secondary, although the plan is to use the next two addresses only when both
      are part of the network (lines 55-57). */
  lemma SecondaryCanBeBroadcast(p: PrefixLength, anyAddress: Address)
    requires p <= 30
    ensures var b := Broadcast(anyAddress, p);
      var pair := PeerAddresses(b - 2, p);
      pair.1 == b && !IsHost(pair.1, b - 2, p)
  {
    var b := Broadcast(anyAddress, p);
    SameNetwork(b - 2, anyAddress, p);
    PeerAddressesSpec(b - 2, p);
  }
}
