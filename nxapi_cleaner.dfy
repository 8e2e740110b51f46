/** The interface description cleaner: CDP neighbours reported over NX-API become one
    `interface` / `description` pair each, with shortened interface names and a cleaned
    remote host name, and the change script is sent as a single ` ; `-separated command. */
module InterfaceDescriptionCleaner {
  import opened Wrappers
  import opened Text

  // ---------------------------------------------------------------------------------------
  // Interface names (lines 117-134)
  // ---------------------------------------------------------------------------------------

  datatype ShortForm = ShortForm(long: string, short: string)

  /** Lines 123-128, in list order. */
  const ShortForms: seq<ShortForm> := [
    ShortForm("Ethernet", "Eth"),
    ShortForm("GigabitEthernet", "Gi"),
    ShortForm("FastEthernet", "Fa"),
    ShortForm("TenGigabitEthernet", "Te")
  ]

  /** The first mapping whose long form begins the name (`re.match("^" + long, name)`). */
  function FirstShortForm(name: string, forms: seq<ShortForm>): (r: Option<nat>)
    ensures r.Some? ==> r.value < |forms| && StartsWith(name, forms[r.value].long)
    ensures r.Some? ==> forall i :: 0 <= i < r.value ==> !StartsWith(name, forms[i].long)
    ensures r.None? ==> forall i :: 0 <= i < |forms| ==> !StartsWith(name, forms[i].long)
    decreases |forms|
  {
    if forms == [] then None
    else if StartsWith(name, forms[0].long) then Some(0)
    else
      var rest := FirstShortForm(name, forms[1..]);
      if rest.None? then None else Some(rest.value + 1)
  }

  /** The shortened name: the first applicable mapping replaces EVERY occurrence of its long
      form (`str.replace`); later mappings are not tried. */
  function ShortName(name: string): string
  {
    match FirstShortForm(name, ShortForms)
      case None => name
      case Some(i) => ReplaceAll(name, ShortForms[i].long, ShortForms[i].short)
  }

  /** Lines 129-134: try the mappings in order and leave the loop at the first that applies. */
  method InterfaceShortener(interfaceName: string) returns (result: string)
    ensures result == ShortName(interfaceName)
  {
    result := interfaceName;
    var i := 0;
    while i < |ShortForms|
      invariant 0 <= i <= |ShortForms| && result == interfaceName
      invariant forall k :: 0 <= k < i ==> !StartsWith(interfaceName, ShortForms[k].long)
    {
      var s := ShortForms[i];
      if StartsWith(result, s.long) {
        result := ReplaceAll(result, s.long, s.short);
        assert FirstShortForm(interfaceName, ShortForms) == Some(i);
        return;
      }
      i := i + 1;
    }
  }

  /** A name that begins with none of the long forms is returned as it is; one that does is
      rewritten by the first such mapping alone. */
  lemma ShortNameCases(name: string)
    ensures (forall i :: 0 <= i < |ShortForms| ==> !StartsWith(name, ShortForms[i].long))
      ==> ShortName(name) == name
    ensures forall i :: 0 <= i < |ShortForms| ==>
      (StartsWith(name, ShortForms[i].long) && (forall k :: 0 <= k < i ==> !StartsWith(name, ShortForms[k].long))
       ==> ShortName(name) == ReplaceAll(name, ShortForms[i].long, ShortForms[i].short))
  {
  }

  /** A text shorter than the pattern does not contain it. */
  lemma {:induction false} ShortTextLacksPattern(s: string, t: string)
    requires |s| < |t|
    ensures !Contains(s, t)
    decreases |s|
  {
    if s != [] {
      ShortTextLacksPattern(s[1..], t);
    }
  }

  /** The long form at the head, and nowhere after it, becomes the short form. */
  lemma ReplaceLeadingLongForm(long: string, short: string, rest: string)
    requires long != [] && !Contains(rest, long)
    ensures ReplaceAll(long + rest, long, short) == short + rest
  {
    assert StartsWith(long + rest, long) && (long + rest)[|long|..] == rest;
    ReplaceAbsent(rest, long, short);
  }

  /** Lines 119-128: `Ethernet1/1` becomes `Eth1/1` and `TenGigabitEthernet1/1` becomes
      `Te1/1` (the order of the list keeps `Ethernet` from matching inside it). */
  lemma ShortNameExamples()
    ensures ShortName("Ethernet1/1") == "Eth1/1"
    ensures ShortName("TenGigabitEthernet1/1") == "Te1/1"
  {
    ShortTextLacksPattern("1/1", "Ethernet");
    ShortTextLacksPattern("1/1", "TenGigabitEthernet");
    assert "Ethernet1/1" == "Ethernet" + "1/1";
    assert "TenGigabitEthernet1/1" == "TenGigabitEthernet" + "1/1";
    ReplaceLeadingLongForm("Ethernet", "Eth", "1/1");
    ReplaceLeadingLongForm("TenGigabitEthernet", "Te", "1/1");
    assert StartsWith("Ethernet1/1", ShortForms[0].long);
    var ten := "TenGigabitEthernet1/1";
    assert StartsWith(ten, ShortForms[3].long);
    assert ten[0] == 'T';
    assert ten[..8][0] != ShortForms[0].long[0];
    assert ten[..15][0] != ShortForms[1].long[0];
    assert ten[..12][0] != ShortForms[2].long[0];
  }

  // ---------------------------------------------------------------------------------------
  // Command normalisation (lines 45-47)
  // ---------------------------------------------------------------------------------------

  /** Lines 45-47: every line break becomes ` ; `, then one trailing ` ; ` is dropped. */
  function NormalizeCommands(commands: string): (r: string)
    ensures '\n' !in r
    ensures var replaced := ReplaceAll(commands, "\n", " ; ");
      (EndsWith(replaced, " ; ") ==> replaced == r + " ; ")
      && (!EndsWith(replaced, " ; ") ==> replaced == r)
  {
    var replaced := ReplaceAll(commands, "\n", " ; ");
    NoLineBreakAfterReplace(commands);
    if EndsWith(replaced, " ; ") then replaced[..|replaced| - 3] else replaced
  }

  /** No line break survives the replacement. */
  lemma NoLineBreakAfterReplace(commands: string)
    ensures '\n' !in ReplaceAll(commands, "\n", " ; ")
  {
    ReplaceCharIsJoinSplit(commands, '\n', " ; ");
    JoinWithoutChar(Split(commands, '\n'), " ; ", '\n');
  }

  lemma {:induction false} JoinWithoutChar(parts: seq<string>, sep: string, c: char)
    requires c !in sep && forall i :: 0 <= i < |parts| ==> c !in parts[i]
    ensures c !in Join(parts, sep)
    decreases |parts|
  {
    if |parts| > 1 {
      JoinWithoutChar(parts[1..], sep, c);
    }
  }

  /** Lines each ended by a line break become the lines each followed by ` ; `. */
  lemma ReplaceLineBreaks(lines: seq<string>)
    requires |lines| >= 1 && forall i :: 0 <= i < |lines| ==> '\n' !in lines[i]
    ensures ReplaceAll(Join(lines, "\n") + "\n", "\n", " ; ") == Join(lines, " ; ") + " ; "
  {
    var parts := lines + [""];
    var s := Join(lines, "\n") + "\n";
    assert forall i :: 0 <= i < |parts| ==> '\n' !in parts[i];
    assert Join(parts, "\n") == s by { JoinSnoc(lines, "", "\n"); }
    assert Split(s, '\n') == parts by { SplitJoin(parts, '\n'); }
    assert Join(parts, " ; ") == Join(lines, " ; ") + " ; " by { JoinSnoc(lines, "", " ; "); }
    ReplaceCharIsJoinSplit(s, '\n', " ; ");
  }

  /** A script of lines, each ended by a line break, is sent as its lines separated by
      ` ; ` with nothing after the last one. */
  lemma NormalizeLines(lines: seq<string>)
    requires |lines| >= 1 && forall i :: 0 <= i < |lines| ==> '\n' !in lines[i]
    ensures NormalizeCommands(Join(lines, "\n") + "\n") == Join(lines, " ; ")
  {
    var joined := Join(lines, " ; ");
    var replaced := joined + " ; ";
    ReplaceLineBreaks(lines);
    assert replaced[|replaced| - 3..] == " ; ";
    var r := NormalizeCommands(Join(lines, "\n") + "\n");
    assert replaced == r + " ; ";
    assert r == replaced[..|r|] == joined;
  }

  // ---------------------------------------------------------------------------------------
  // Neighbour entries (lines 159-175) and the change script (lines 182-187)
  // ---------------------------------------------------------------------------------------

  /** The fields of one `ROW_cdp_neighbor_detail_info` row that the script reads. */
  datatype CdpNeighbor = CdpNeighbor(deviceId: string, intfId: string, portId: string, v4MgmtAddr: string)

  datatype NeighborEntry = NeighborEntry(localInterface: string, remoteHost: string,
                                         remoteInterface: string, remoteMgmtIp: string)

  /** Lines 161-163: the device id up to the first `(` (serial number suffix), then up to
      the first `.` (domain suffix). */
  function CleanRemoteHost(deviceId: string): (r: string)
    ensures '(' !in r && '.' !in r
  {
    var remoteHost := Split(deviceId, '(')[0];
    if '.' in remoteHost then Split(remoteHost, '.')[0] else remoteHost
  }

  /** The cleaned name is the device id up to its first `(` or `.`, or all of it. */
  lemma CleanRemoteHostPrefix(deviceId: string)
    ensures var r := CleanRemoteHost(deviceId);
      StartsWith(deviceId, r)
      && (|r| == |deviceId| || deviceId[|r|] == '(' || deviceId[|r|] == '.')
  {
    SplitHead(deviceId, '(');
    var h := Split(deviceId, '(')[0];
    SplitHead(h, '.');
  }

  /** Lines 166-175 for one neighbour. */
  function EntryOf(n: CdpNeighbor): (e: NeighborEntry)
    ensures '(' !in e.remoteHost && '.' !in e.remoteHost
    ensures e.remoteMgmtIp == n.v4MgmtAddr
  {
    NeighborEntry(ShortName(n.intfId), CleanRemoteHost(n.deviceId), ShortName(n.portId), n.v4MgmtAddr)
  }

  /** Lines 159-175: one entry per neighbour, in the order the switch reported them. */
  method HostNeighbors(neighbors: seq<CdpNeighbor>) returns (hostNeighbors: seq<NeighborEntry>)
    ensures |hostNeighbors| == |neighbors|
    ensures forall i :: 0 <= i < |neighbors| ==> hostNeighbors[i] == EntryOf(neighbors[i])
  {
    hostNeighbors := [];
    var i := 0;
    while i < |neighbors|
      invariant 0 <= i <= |neighbors| && |hostNeighbors| == i
      invariant forall k :: 0 <= k < i ==> hostNeighbors[k] == EntryOf(neighbors[k])
    {
      var neighbor := neighbors[i];
      var remoteHost := Split(neighbor.deviceId, '(')[0];
      if '.' in remoteHost {
        remoteHost := Split(remoteHost, '.')[0];
      }
      var localInterface := InterfaceShortener(neighbor.intfId);
      var remoteInterface := InterfaceShortener(neighbor.portId);
      var entry := NeighborEntry(localInterface, remoteHost, remoteInterface, neighbor.v4MgmtAddr);
      hostNeighbors := hostNeighbors + [entry];
      i := i + 1;
    }
  }

  /** Line 184: `"interface %s\n description *** %s, %s (%s)\n"`. */
  function DescriptionBlock(e: NeighborEntry): string {
    "interface " + e.localInterface + "\n description *** " + e.remoteInterface + ", "
      + e.remoteHost + " (" + e.remoteMgmtIp + ")\n"
  }

  function ChangeScript(entries: seq<NeighborEntry>): string
    decreases |entries|
  {
    if entries == [] then ""
    else ChangeScript(entries[..|entries| - 1]) + DescriptionBlock(entries[|entries| - 1])
  }

  /** Lines 182-187: the blocks of all entries, appended in order. */
  method BuildChangeScript(entries: seq<NeighborEntry>) returns (changeScript: string)
    ensures changeScript == ChangeScript(entries)
  {
    changeScript := "";
    var i := 0;
    while i < |entries|
      invariant 0 <= i <= |entries|
      invariant changeScript == ChangeScript(entries[..i])
    {
      assert entries[..i + 1][..i] == entries[..i];
      var entry := entries[i];
      changeScript := changeScript + ("interface " + entry.localInterface + "\n description *** "
        + entry.remoteInterface + ", " + entry.remoteHost + " (" + entry.remoteMgmtIp + ")\n");
      i := i + 1;
    }
    assert entries[..i] == entries;
  }

  /** One block is its two lines, each ended by a line break. */
  lemma DescriptionBlockLines(e: NeighborEntry)
    ensures DescriptionBlock(e) == BlockLines(e)[0] + "\n" + BlockLines(e)[1] + "\n"
  {
    assert "\n description *** " == "\n" + " description *** ";
    assert ")\n" == ")" + "\n";
  }

  /** The two lines of one block. */
  function BlockLines(e: NeighborEntry): seq<string> {
    ["interface " + e.localInterface,
     " description *** " + e.remoteInterface + ", " + e.remoteHost + " (" + e.remoteMgmtIp + ")"]
  }

  function ScriptLines(entries: seq<NeighborEntry>): (r: seq<string>)
    ensures |r| == 2 * |entries|
    decreases |entries|
  {
    if entries == [] then [] else ScriptLines(entries[..|entries| - 1]) + BlockLines(entries[|entries| - 1])
  }

  predicate OneLine(e: NeighborEntry) {
    '\n' !in e.localInterface && '\n' !in e.remoteHost
      && '\n' !in e.remoteInterface && '\n' !in e.remoteMgmtIp
  }

  /** A script for at least one neighbour is its lines, each ended by a line break. */
  lemma {:induction false} ChangeScriptLines(entries: seq<NeighborEntry>)
    requires |entries| >= 1
    ensures ChangeScript(entries) == Join(ScriptLines(entries), "\n") + "\n"
    decreases |entries|
  {
    var init := entries[..|entries| - 1];
    var e := entries[|entries| - 1];
    var b := BlockLines(e);
    DescriptionBlockLines(e);
    if init == [] {
      assert ScriptLines(entries) == b;
      assert Join(b, "\n") == b[0] + "\n" + b[1] by { JoinCons(b[0], [b[1]], "\n"); }
    } else {
      ChangeScriptLines(init);
      var ls := ScriptLines(init);
      assert ScriptLines(entries) == ls + b;
      assert ChangeScript(entries) == ChangeScript(init) + DescriptionBlock(e);
      JoinSnoc(ls, b[0], "\n");
      JoinSnoc(ls + [b[0]], b[1], "\n");
      assert ls + b == ls + [b[0]] + [b[1]];
      Regroup(Join(ls, "\n"), b[0], b[1]);
    }
  }

  lemma Regroup(a: string, x: string, y: string)
    ensures (a + "\n") + (x + "\n" + y + "\n") == a + "\n" + x + "\n" + y + "\n"
  {
  }

  lemma {:induction false} ScriptLinesOneLine(entries: seq<NeighborEntry>)
    requires forall i :: 0 <= i < |entries| ==> OneLine(entries[i])
    ensures forall i :: 0 <= i < |ScriptLines(entries)| ==> '\n' !in ScriptLines(entries)[i]
    decreases |entries|
  {
    if entries != [] {
      ScriptLinesOneLine(entries[..|entries| - 1]);
    }
  }

  /** What the switch receives (lines 182-190 with lines 45-47): the script's lines, two per
      neighbour, separated by ` ; `. */
  lemma SentCommands(entries: seq<NeighborEntry>)
    requires |entries| >= 1 && forall i :: 0 <= i < |entries| ==> OneLine(entries[i])
    ensures NormalizeCommands(ChangeScript(entries)) == Join(ScriptLines(entries), " ; ")
  {
    ChangeScriptLines(entries);
    ScriptLinesOneLine(entries);
    NormalizeLines(ScriptLines(entries));
  }
}
