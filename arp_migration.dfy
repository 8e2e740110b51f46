/** The static-ARP migration: read the SVIs of an IOS configuration, attach every static ARP
    entry to the first SVI whose host range holds its address, and write an NX-OS template with
    the `ip arp` lines under each SVI. */
module ArpMigration {
  import opened Wrappers
  import opened Text
  import opened Ipv4
  import opened CiscoSvi

  /** One `ip arp` entry as it is attached to an SVI: the address text as written in the IOS
      line, its value, and the MAC text. */
  datatype ArpEntry = ArpEntry(host: string, address: Address, mac: string)

  /** One SVI record: the VLAN id, the address and prefix length read from `ip address`, and
      the `static_arps` list, absent (`None`) until the first entry is attached. */
  datatype SviRecord = SviRecord(vlanId: string, address: Address, prefixLength: PrefixLength,
                                 staticArps: Option<seq<ArpEntry>>)

  /** The exceptions that end the script. */
  datatype ArpError =
    | MissingFields(line: string)      // IndexError: fewer than three tokens
    | InvalidAddress(text: string)     // AddressValueError from IPv4Address
    | NoStaticArps(vlanId: string)     // KeyError: the SVI never got a `static_arps` list

  predicate AllPlannable(records: seq<SviRecord>) {
    forall i :: 0 <= i < |records| ==> records[i].prefixLength <= 30
  }

  function RecordOf(svi: SviInterface): SviRecord {
    SviRecord(VlanId(svi.text), svi.address, svi.prefixLength, None)
  }

  /** Lines 12-37: one record per SVI, in interface order, none with ARP entries yet. */
  method GetSviRecords(svis: seq<SviInterface>) returns (records: seq<SviRecord>)
    ensures |records| == |svis|
    ensures forall i :: 0 <= i < |svis| ==> records[i] == RecordOf(svis[i])
    ensures forall i :: 0 <= i < |svis| ==>
      records[i].vlanId == VlanId(svis[i].text) && records[i].staticArps.None?
  {
    records := [];
    var i := 0;
    while i < |svis|
      invariant 0 <= i <= |svis| && |records| == i
      invariant forall k :: 0 <= k < i ==> records[k] == RecordOf(svis[k])
    {
      var svi := svis[i];
      var vlanId := VlanId(svi.text);
      records := records + [SviRecord(vlanId, svi.address, svi.prefixLength, None)];
      i := i + 1;
    }
  }

  /** Lines 67-72: the second and third whitespace-separated tokens of an `arp` line, the
      second read as an address. */
  function ParseArpLine(line: string): (r: Result<ArpEntry, ArpError>)
    ensures r.Ok? ==> var tokens := SplitWhitespace(line);
      |tokens| >= 3 && r.value.host == tokens[1] && r.value.mac == tokens[2]
      && ParseDotted(tokens[1]) == Some(r.value.address)
    ensures r.Err? <==> |SplitWhitespace(line)| < 3 || ParseDotted(SplitWhitespace(line)[1]).None?
  {
    var tokens := SplitWhitespace(line);
    if |tokens| < 3 then Err(MissingFields(line))
    else
      var parsed := ParseDotted(tokens[1]);
      if parsed.None? then Err(InvalidAddress(tokens[1]))
      else Ok(ArpEntry(tokens[1], parsed.value, tokens[2]))
  }

  /** The index of the first SVI whose host range holds `a`, if any. */
  function FirstHostSvi(records: seq<SviRecord>, a: Address): (r: Option<nat>)
    requires AllPlannable(records)
    ensures r.Some? ==>
      r.value < |records| && IsHost(a, records[r.value].address, records[r.value].prefixLength)
      && forall i :: 0 <= i < r.value ==> !IsHost(a, records[i].address, records[i].prefixLength)
    ensures r.None? ==> forall i :: 0 <= i < |records| ==> !IsHost(a, records[i].address, records[i].prefixLength)
    decreases |records|
  {
    if records == [] then None
    else if IsHost(a, records[0].address, records[0].prefixLength) then Some(0)
    else
      var rest := FirstHostSvi(records[1..], a);
      if rest.None? then None else Some(rest.value + 1)
  }

  function Arps(r: SviRecord): seq<ArpEntry> {
    if r.staticArps.None? then [] else r.staticArps.value
  }

  /** One pass of the inner loop: the entry goes to the end of the first matching SVI's list;
      an entry no SVI's host range holds is dropped. */
  function Attach(records: seq<SviRecord>, e: ArpEntry): (r: seq<SviRecord>)
    requires AllPlannable(records)
    ensures SameSvis(records, r) && AllPlannable(r)
  {
    var j := FirstHostSvi(records, e.address);
    if j.None? then records
    else records[j.value := records[j.value].(staticArps := Some(Arps(records[j.value]) + [e]))]
  }

  /** All entries, attached in configuration order. */
  function AttachAll(records: seq<SviRecord>, entries: seq<ArpEntry>): (r: seq<SviRecord>)
    requires AllPlannable(records)
    ensures SameSvis(records, r) && AllPlannable(r)
    decreases |entries|
  {
    if entries == [] then records
    else Attach(AttachAll(records, entries[..|entries| - 1]), entries[|entries| - 1])
  }

  /** Attaching entries changes only the `static_arps` lists. */
  predicate SameSvis(a: seq<SviRecord>, b: seq<SviRecord>) {
    |a| == |b| && forall i :: 0 <= i < |a| ==>
      a[i].vlanId == b[i].vlanId && a[i].address == b[i].address && a[i].prefixLength == b[i].prefixLength
  }

  lemma {:induction false} FirstHostSviSame(a: seq<SviRecord>, b: seq<SviRecord>, x: Address)
    requires AllPlannable(a) && AllPlannable(b) && SameSvis(a, b)
    ensures FirstHostSvi(a, x) == FirstHostSvi(b, x)
    decreases |a|
  {
    if a != [] {
      FirstHostSviSame(a[1..], b[1..], x);
    }
  }

  /** Every ARP line parsed, in order; the first line that fails ends the script with its
      error. */
  function ParseAll(lines: seq<string>): (r: Result<seq<ArpEntry>, ArpError>)
    ensures r.Ok? ==> |r.value| == |lines|
    decreases |lines|
  {
    if lines == [] then Ok([])
    else
      var before := ParseAll(lines[..|lines| - 1]);
      if before.Err? then before
      else
        var e := ParseArpLine(lines[|lines| - 1]);
        if e.Err? then Err(e.error) else Ok(before.value + [e.value])
  }

  /** Parsing succeeds exactly when every line parses, and then yields each line's entry in
      order. */
  lemma {:induction false} ParseAllOk(lines: seq<string>)
    ensures ParseAll(lines).Ok? <==> forall k :: 0 <= k < |lines| ==> ParseArpLine(lines[k]).Ok?
    decreases |lines|
  {
    if lines != [] {
      var init := lines[..|lines| - 1];
      ParseAllOk(init);
      assert forall k :: 0 <= k < |init| ==> init[k] == lines[k];
    }
  }

  lemma {:induction false} ParseAllValues(lines: seq<string>)
    requires ParseAll(lines).Ok?
    ensures forall k :: 0 <= k < |lines| ==> ParseArpLine(lines[k]) == Ok(ParseAll(lines).value[k])
    decreases |lines|
  {
    if lines != [] {
      var init := lines[..|lines| - 1];
      ParseAllValues(init);
      assert forall k :: 0 <= k < |init| ==> init[k] == lines[k];
    }
  }

  /** The assignment stage as a whole: nothing is attached unless every line parses. */
  function AssignAll(records: seq<SviRecord>, lines: seq<string>): Result<seq<SviRecord>, ArpError>
    requires AllPlannable(records)
  {
    var entries := ParseAll(lines);
    if entries.Err? then Err(entries.error) else Ok(AttachAll(records, entries.value))
  }

  /** Lines 60-88: the ARP lines, each parsed and attached to the first SVI whose host range
      holds it, leaving the loop over the SVIs at that match. */
  method AssignStaticArps(records0: seq<SviRecord>, arpLines: seq<string>)
      returns (result: Result<seq<SviRecord>, ArpError>)
    requires AllPlannable(records0)
    ensures result == AssignAll(records0, arpLines)
  {
    var records := records0;
    ghost var entries: seq<ArpEntry> := [];
    var k := 0;
    while k < |arpLines|
      invariant 0 <= k <= |arpLines|
      invariant ParseAll(arpLines[..k]) == Ok(entries)
      invariant records == AttachAll(records0, entries)
    {
      assert arpLines[..k + 1][..k] == arpLines[..k];
      var tokens := SplitWhitespace(arpLines[k]);
      if |tokens| < 3 {
        ParseErrSticks(arpLines, k + 1);
        return Err(MissingFields(arpLines[k]));
      }
      var ipv4 := tokens[1];
      var mac := tokens[2];
      var arpAddress := ParseDotted(ipv4);
      if arpAddress.None? {
        ParseErrSticks(arpLines, k + 1);
        return Err(InvalidAddress(ipv4));
      }
      var entry := ArpEntry(ipv4, arpAddress.value, mac);
      records := AttachEntry(records, entry);
      assert (entries + [entry])[..|entries|] == entries;
      entries := entries + [entry];
      k := k + 1;
    }
    assert arpLines[..k] == arpLines;
    return Ok(records);
  }

  lemma FirstHostSviAt(records: seq<SviRecord>, a: Address, j: nat)
    requires AllPlannable(records) && j < |records| && IsHost(a, records[j].address, records[j].prefixLength)
    requires forall i :: 0 <= i < j ==> !IsHost(a, records[i].address, records[i].prefixLength)
    ensures FirstHostSvi(records, a) == Some(j)
  {
  }

  lemma AttachHit(records: seq<SviRecord>, e: ArpEntry, j: nat)
    requires AllPlannable(records) && j < |records| && IsHost(e.address, records[j].address, records[j].prefixLength)
    requires forall i :: 0 <= i < j ==> !IsHost(e.address, records[i].address, records[i].prefixLength)
    ensures Attach(records, e) == records[j := records[j].(staticArps := Some(Arps(records[j]) + [e]))]
  {
    FirstHostSviAt(records, e.address, j);
  }

  /** Lines 74-88: the loop over the SVIs for one entry, which appends it to the first SVI
      whose host range holds it and leaves the loop there. */
  method AttachEntry(records0: seq<SviRecord>, entry: ArpEntry) returns (records: seq<SviRecord>)
    requires AllPlannable(records0)
    ensures records == Attach(records0, entry)
  {
    records := records0;
    var j := 0;
    while j < |records|
      invariant 0 <= j <= |records| && records == records0
      invariant forall i :: 0 <= i < j ==> !IsHost(entry.address, records[i].address, records[i].prefixLength)
    {
      if IsHost(entry.address, records[j].address, records[j].prefixLength) {
        var arps := if records[j].staticArps.None? then [] else records[j].staticArps.value;
        records := records[j := records[j].(staticArps := Some(arps + [entry]))];
        AttachHit(records0, entry, j);
        return;
      }
      j := j + 1;
    }
  }

  /** Once a line fails, parsing the whole list fails with that line's error. */
  lemma {:induction false} ParseErrSticks(lines: seq<string>, n: nat)
    requires n <= |lines| && ParseAll(lines[..n]).Err?
    ensures ParseAll(lines) == ParseAll(lines[..n])
    decreases |lines| - n
  {
    if n < |lines| {
      assert lines[..n + 1][..n] == lines[..n];
      ParseErrSticks(lines, n + 1);
    } else {
      assert lines[..n] == lines;
    }
  }

  /** The entries that end up under SVI `j`: those whose first containing host range is SVI
      `j`'s, in configuration order. */
  function AssignedTo(records: seq<SviRecord>, entries: seq<ArpEntry>, j: nat): seq<ArpEntry>
    requires AllPlannable(records)
    decreases |entries|
  {
    if entries == [] then []
    else
      var last := entries[|entries| - 1];
      AssignedTo(records, entries[..|entries| - 1], j)
        + (if FirstHostSvi(records, last.address) == Some(j) then [last] else [])
  }

  /** Each SVI's list is its old list followed by exactly the entries assigned to it, in
      order; so an entry lands under one SVI at most, entries outside every host range are
      dropped, and an SVI keeps no list at all when it had none and got nothing. */
  lemma {:induction false} AttachAllContents(records: seq<SviRecord>, entries: seq<ArpEntry>, j: nat)
    requires AllPlannable(records) && j < |records|
    ensures Arps(AttachAll(records, entries)[j]) == Arps(records[j]) + AssignedTo(records, entries, j)
    ensures AttachAll(records, entries)[j].staticArps.Some?
      <==> records[j].staticArps.Some? || AssignedTo(records, entries, j) != []
    decreases |entries|
  {
    if entries != [] {
      var init := entries[..|entries| - 1];
      var last := entries[|entries| - 1];
      var rs := AttachAll(records, init);
      AttachAllContents(records, init, j);
      FirstHostSviSame(rs, records, last.address);
      AttachAt(rs, last, j);
      assert AttachAll(records, entries) == Attach(rs, last);
      assert AssignedTo(records, entries, j) == AssignedTo(records, init, j)
        + (if FirstHostSvi(records, last.address) == Some(j) then [last] else []);
    }
  }

  lemma AttachAt(records: seq<SviRecord>, e: ArpEntry, j: nat)
    requires AllPlannable(records) && j < |records|
    ensures Attach(records, e)[j] == if FirstHostSvi(records, e.address) == Some(j)
      then records[j].(staticArps := Some(Arps(records[j]) + [e])) else records[j]
  {
  }

  /** Only entries of the list land under SVI `j`, and each of them has SVI `j` as the first
      SVI whose host range holds its address: a network or broadcast address never lands there. */
  lemma {:induction false} AssignedToSpec(records: seq<SviRecord>, entries: seq<ArpEntry>, j: nat)
    requires AllPlannable(records)
    ensures forall e :: e in AssignedTo(records, entries, j) ==>
      e in entries && FirstHostSvi(records, e.address) == Some(j)
    ensures |AssignedTo(records, entries, j)| <= |entries|
    decreases |entries|
  {
    if entries != [] {
      var init := entries[..|entries| - 1];
      AssignedToSpec(records, init, j);
      assert forall e :: e in init ==> e in entries;
    }
  }

  /** An address no SVI's host range holds is attached nowhere. */
  lemma {:induction false} UnplacedIsDropped(records: seq<SviRecord>, entries: seq<ArpEntry>, j: nat, e: ArpEntry)
    requires AllPlannable(records) && FirstHostSvi(records, e.address).None?
    ensures e !in AssignedTo(records, entries, j)
    decreases |entries|
  {
    if entries != [] {
      UnplacedIsDropped(records, entries[..|entries| - 1], j, e);
    }
  }

  /** `" ip arp <ip> <mac>"`, with the address text as it appeared in the IOS line. */
  function ArpLine(e: ArpEntry): string {
    " ip arp " + e.host + " " + e.mac
  }

  function ArpLines(arps: seq<ArpEntry>): (r: seq<string>)
    ensures |r| == |arps|
    decreases |arps|
  {
    if arps == [] then [] else ArpLines(arps[..|arps| - 1]) + [ArpLine(arps[|arps| - 1])]
  }

  lemma {:induction false} ArpLinesAt(arps: seq<ArpEntry>, k: nat)
    requires k < |arps|
    ensures ArpLines(arps)[k] == ArpLine(arps[k])
    decreases |arps|
  {
    if k < |arps| - 1 {
      ArpLinesAt(arps[..|arps| - 1], k);
    }
  }

  /** Lines 91-97 as a value: `"!"`, then per SVI its interface line, its `ip arp` lines and
      `"!"`; the first SVI without a `static_arps` list raises the key error. */
  function Template(records: seq<SviRecord>): Result<seq<string>, ArpError>
    decreases |records|
  {
    if records == [] then Ok(["!"])
    else
      var before := Template(records[..|records| - 1]);
      var r := records[|records| - 1];
      if before.Err? then before
      else if r.staticArps.None? then Err(NoStaticArps(r.vlanId))
      else Ok(before.value + ["interface Vlan" + r.vlanId] + ArpLines(r.staticArps.value) + ["!"])
  }

  /** Lines 91-97: the template, appended line by line. */
  method EmitTemplate(records: seq<SviRecord>) returns (result: Result<seq<string>, ArpError>)
    ensures result == Template(records)
  {
    var template := ["!"];
    var i := 0;
    while i < |records|
      invariant 0 <= i <= |records|
      invariant Template(records[..i]) == Ok(template)
    {
      assert records[..i + 1][..i] == records[..i];
      var svi := records[i];
      template := template + ["interface Vlan" + svi.vlanId];
      if svi.staticArps.None? {
        TemplateErrSticks(records, i + 1);
        return Err(NoStaticArps(svi.vlanId));
      }
      var arps := svi.staticArps.value;
      ghost var head := template;
      var m := 0;
      while m < |arps|
        invariant 0 <= m <= |arps|
        invariant template == head + ArpLines(arps[..m])
      {
        assert arps[..m + 1][..m] == arps[..m];
        template := template + [" ip arp " + arps[m].host + " " + arps[m].mac];
        m := m + 1;
      }
      assert arps[..m] == arps;
      template := template + ["!"];
      i := i + 1;
    }
    assert records[..i] == records;
    return Ok(template);
  }

  lemma {:induction false} TemplateErrSticks(records: seq<SviRecord>, n: nat)
    requires n <= |records| && Template(records[..n]).Err?
    ensures Template(records) == Template(records[..n])
    decreases |records| - n
  {
    if n < |records| {
      assert records[..n + 1][..n] == records[..n];
      TemplateErrSticks(records, n + 1);
    } else {
      assert records[..n] == records;
    }
  }

  /** The template is written exactly when every SVI has a `static_arps` list; otherwise the
      key error names the first SVI without one. */
  lemma {:induction false} TemplateOk(records: seq<SviRecord>)
    ensures Template(records).Ok? <==> forall i :: 0 <= i < |records| ==> records[i].staticArps.Some?
    ensures Template(records).Err? ==>
      exists k :: (0 <= k < |records| && records[k].staticArps.None?
        && Template(records).error == NoStaticArps(records[k].vlanId)
        && forall i :: 0 <= i < k ==> records[i].staticArps.Some?)
    decreases |records|
  {
    if records != [] {
      var init := records[..|records| - 1];
      TemplateOk(init);
      assert forall i :: 0 <= i < |init| ==> init[i] == records[i];
    }
  }

  /** Every SVI's host range is the first to hold at least one of the entries. */
  predicate EveryRangeUsed(records: seq<SviRecord>, entries: seq<ArpEntry>)
    requires AllPlannable(records)
  {
    forall j :: 0 <= j < |records| ==> AssignedTo(records, entries, j) != []
  }

  /** Starting from records as they are first read, none with a list, the migration writes
      its template exactly when every SVI's host range is the first to hold at least one of
      the ARP entries. */
  lemma MigrationSucceeds(records: seq<SviRecord>, entries: seq<ArpEntry>)
    requires AllPlannable(records)
    requires forall i :: 0 <= i < |records| ==> records[i].staticArps.None?
    ensures Template(AttachAll(records, entries)).Ok? <==> EveryRangeUsed(records, entries)
  {
    var after := AttachAll(records, entries);
    assert |after| == |records|;
    TemplateOk(after);
    forall j | 0 <= j < |records|
      ensures after[j].staticArps.Some? <==> AssignedTo(records, entries, j) != []
    {
      AttachAllContents(records, entries, j);
    }
  }
}
