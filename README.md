# Network automation scripts, modelled in Dafny

This project models the text-processing core of a collection of network automation
scripts. Each script takes device output or configuration text and turns it into new
configuration, dictionaries or a topology. The scripts are:

- **CLI capture splitter** (`CliSplitter`). A transcript of several `show` commands is cut
  at every prompt `\n<host>#`. Each segment with output becomes a `command -> output`
  entry, and the last segment with a given command wins. The log files are picked by
  extension and named after the device.
- **Netmask filter** (`NetmaskFilter`). A prefix length becomes its dotted-decimal netmask,
  or `[INVALID VALUE(<n>)]` when it is out of range.
- **CSV parameter files** (`CsvConfig`). A `;`-separated file becomes one parameter
  dictionary per data line, keyed by the header fields. A line that is too short raises
  `IndexError`, and a missing `hostname` column raises `KeyError` when the output file is
  named.
- **HSRP planner** (`HsrpConfig`). Each VLAN interface (SVI) address becomes the HSRP
  virtual address. The next two addresses become the primary's and the secondary's own
  addresses, or the previous two when the next one is not a host of the subnet. The
  planner emits two configurations that differ only in the address and the priority.
- **Static-ARP migration** (`ArpMigration`). Each `arp` line is attached to the first SVI
  whose host range holds its address. Then an NX-OS template with `ip arp` lines under
  each SVI is written. An SVI that received no entry raises `KeyError`.
- **NX-API interface description cleaner** (`InterfaceDescriptionCleaner`). Each CDP
  neighbour gets a shortened interface name and a remote host name stripped of its serial
  and domain suffixes. The neighbours become a change script, which is sent as one
  command with the lines joined by ` ; `.
- **CDP topology builder** (`CdpTopology`). The rows of `show cdp neighbor detail` become
  the node and edge lists of a diagram. The local device is root node 1. Each new
  neighbour adds a node and an edge of value 0. A repeated neighbour adds 10 to every edge
  leading to the first node whose label contains its name.

Shared modules:

- `Text` models the Python string operations the scripts use: `split`, `splitlines`,
  `str.split()`, `replace`, `lstrip`, `join`, decimal conversion.
- `Ipv4` models addresses, prefix lengths, network and broadcast addresses, host ranges,
  masks and the dotted-decimal text form, with both directions of the conversion.
- `CiscoSvi` holds the SVI record that both configuration scripts read and the way they
  derive the interface name and VLAN id.
- `Wrappers` holds `Option` and `Result`.

The scripts are imperative, so each has a method with loops that mirrors its source loop
(`SplitConfigFile`, `ConvertCsv`, `GenerateConfigs`, `AssignStaticArps`, `EmitTemplate`,
`HostNeighbors`, `BuildChangeScript`, `BuildTopology`, …). Each method is proved equal to a
specification function, and the properties of the script are proved as lemmas about that
function.

## Model

| member | source | states |
|---|---|---|
| Text.Split | config-generator-with-python-and-jinja2/csv_based_config_generator.py:20-22 | `str.split(c)` gives at least one piece and no piece holds the separator |
| Text.JoinSplit | config-generator-with-python-and-jinja2/csv_based_config_generator.py:20-22 | joining the pieces of `split(c)` with `c` gives back the text |
| Text.SplitJoin | config-generator-with-python-and-jinja2/csv_based_config_generator.py:20-22 | splitting a join of separator-free pieces gives back the pieces |
| Text.SplitLines | config-generator-with-python-and-jinja2/csv_based_config_generator.py:19 | `splitlines()` is empty exactly for the empty text and no line holds a line break |
| Text.SplitLinesJoin | split_cli_output/split_cli_ouput.py:30 | the lines joined by line breaks, plus the final break if the text had one, are the text |
| Text.SplitWhitespace | migrate-static-arp-entries/create-migration-templates.py:67 | `str.split()` yields only non-empty tokens without whitespace |
| Text.SplitWhitespaceJoin | migrate-static-arp-entries/create-migration-templates.py:67 | tokens joined by single spaces split back into the same tokens |
| Text.ReplaceCharIsJoinSplit | cisco-nx-api-example/interface-description-cleaner.py:45 | replacing one character everywhere equals splitting at it and joining with the replacement |
| Text.ReplaceAbsent | cisco-nx-api-example/interface-description-cleaner.py:132 | `replace` leaves a text without the pattern unchanged |
| Text.LStripCharsSpec | migrate-static-arp-entries/create-migration-templates.py:29-30 | `lstrip(chars)` removes exactly the longest prefix made of those characters |
| Text.ParseNatToString | migrate-static-arp-entries/create-migration-templates.py:72 | reading back the decimal text of a number gives the number |
| Ipv4.Network | create-hsrp-interface-configuration/create-hsrp-interface-configuration.py:58 | the network address is a multiple of the block size, at most the address, and the block ends after it, within the address space |
| Ipv4.NetworkUnique | create-hsrp-interface-configuration/create-hsrp-interface-configuration.py:58 | the network address is the only block-aligned address whose block holds the address |
| Ipv4.Broadcast | create-hsrp-interface-configuration/create-hsrp-interface-configuration.py:58 | the broadcast address is the last address of the block holding the address |
| Ipv4.SameNetwork | create-hsrp-interface-configuration/create-hsrp-interface-configuration.py:58-59 | every address between network and broadcast has the same network |
| Ipv4.MaskBits | config-generator-with-custom-filters/config-generator-with-custom-filter.py:27-28 | the netmask of prefix `p` has exactly the `p` leading bits set |
| Ipv4.MaskMonotone | config-generator-with-custom-filters/config-generator-with-custom-filter.py:27-28 | a longer prefix never gives a smaller mask |
| Ipv4.OctetsRoundTrip | migrate-static-arp-entries/create-migration-templates.py:32-33 | an address rebuilt from its four octets is the address |
| Ipv4.FromOctetsRoundTrip | migrate-static-arp-entries/create-migration-templates.py:32-33 | four octets rebuilt from their address are the octets |
| Ipv4.ParseDottedRoundTrip | migrate-static-arp-entries/create-migration-templates.py:72 | `IPv4Address(str(a))` accepts the dotted text of every address and gives it back |
| Ipv4.ParseDottedExactly | migrate-static-arp-entries/create-migration-templates.py:72 | the parser accepts a text as address `a` exactly when it is the canonical dotted text of `a` (no leading zeros) |
| Ipv4.ParseOctetCanonical | migrate-static-arp-entries/create-migration-templates.py:72 | an accepted octet is written in canonical decimal |
| CiscoSvi.LStripPrefix | migrate-static-arp-entries/create-migration-templates.py:29-30 | stripping a character set removes a prefix of those characters and stops at the first other one |
| CiscoSvi.NamesOfVlanLine | create-hsrp-interface-configuration/create-hsrp-interface-configuration.py:49-50 | for `interface Vlan<digits>` the two strips give `Vlan<digits>` and `<digits>` |
| NetmaskFilter.DottedDecimal | config-generator-with-custom-filters/config-generator-with-custom-filter.py:20-30 | for 0..32 the result parses as an address whose bits are the prefix mask; otherwise it is the `[INVALID VALUE(n)]` text, which never parses |
| NetmaskFilter.InvalidNeverParses | config-generator-with-custom-filters/config-generator-with-custom-filter.py:29-30 | the invalid-value text is never an address |
| NetmaskFilter.DottedDecimalZero | config-generator-with-custom-filters/config-generator-with-custom-filter.py:27-28 | prefix 0 gives `0.0.0.0` |
| NetmaskFilter.MaskZero | config-generator-with-custom-filters/config-generator-with-custom-filter.py:27-28 | prefix 0 gives the text of address 0 |
| NetmaskFilter.DottedDecimalThirtyTwo | config-generator-with-custom-filters/config-generator-with-custom-filter.py:27-28 | prefix 32 gives `255.255.255.255` |
| NetmaskFilter.MaskThirtyTwo | config-generator-with-custom-filters/config-generator-with-custom-filter.py:27-28 | prefix 32 gives the text of the highest address |
| NetmaskFilter.DottedDecimalMonotone | config-generator-with-custom-filters/config-generator-with-custom-filter.py:27-28 | a longer valid prefix gives a numerically larger or equal mask |
| CsvConfig.CsvParameters | config-generator-with-python-and-jinja2/csv_based_config_generator.py:19-26 | on success there is one dictionary per line after the header; empty content has no header line |
| CsvConfig.ConvertCsv | config-generator-with-python-and-jinja2/csv_based_config_generator.py:19-26 | the nested loops give exactly the specified dictionaries or error |
| CsvConfig.ParametersStep | config-generator-with-python-and-jinja2/csv_based_config_generator.py:21-26 | each further data line appends its dictionary, fails on a short line, or keeps an earlier error |
| CsvConfig.ParametersErrSticks | config-generator-with-python-and-jinja2/csv_based_config_generator.py:21-26 | after the first error the conversion's result is that error |
| CsvConfig.ParametersOk | config-generator-with-python-and-jinja2/csv_based_config_generator.py:21-26 | the conversion succeeds iff no data line has fewer fields than the header, and then entry `i - 1` is line `i`'s dictionary |
| CsvConfig.ParametersErrFirst | config-generator-with-python-and-jinja2/csv_based_config_generator.py:21-26 | a failure names the first short line and its field count as the missing index |
| CsvConfig.RowDictKeys | config-generator-with-python-and-jinja2/csv_based_config_generator.py:24-25 | a dictionary's keys are exactly the header fields |
| CsvConfig.RowDictLookup | config-generator-with-python-and-jinja2/csv_based_config_generator.py:24-25 | each header maps to the field in its column, the last column winning for a repeated header |
| CsvConfig.RowDictIgnoresExtraFields | config-generator-with-python-and-jinja2/csv_based_config_generator.py:24-25 | fields beyond the header count do not change the dictionary |
| CsvConfig.ConfigFileName | config-generator-with-python-and-jinja2/csv_based_config_generator.py:42 | the file name exists iff `hostname` is a key, and is that value followed by `.config` |
| HsrpConfig.PeerAddressesSpec | create-hsrp-interface-configuration/create-hsrp-interface-configuration.py:58-64 | both peers lie in the SVI's subnet; the primary is `+1` exactly when that is a host, else `-1`; the secondary is twice as far; the primary is always a host; the secondary is the broadcast iff the SVI is two below it |
| HsrpConfig.PeersDiffer | create-hsrp-interface-configuration/create-hsrp-interface-configuration.py:58-64 | the primary and secondary addresses differ |
| HsrpConfig.SecondaryCanBeBroadcast | create-hsrp-interface-configuration/create-hsrp-interface-configuration.py:58-61 | for an SVI two below the broadcast address, the secondary address is the broadcast address, not a host |
| HsrpConfig.FirstTop | create-hsrp-interface-configuration/create-hsrp-interface-configuration.py:44-59 | finds the first SVI on the last address of the address space, with none before it |
| HsrpConfig.Plan | create-hsrp-interface-configuration/create-hsrp-interface-configuration.py:30-83 | the plan fails exactly when some SVI sits on 255.255.255.255, and then names the first such SVI; otherwise it is the primary and secondary configurations |
| HsrpConfig.FirstTopAt | create-hsrp-interface-configuration/create-hsrp-interface-configuration.py:44-59 | an SVI on the last address with every earlier SVI renderable is the first such SVI |
| HsrpConfig.GenerateConfigs | create-hsrp-interface-configuration/create-hsrp-interface-configuration.py:30-83 | the loop builds exactly the plan: the error for the first SVI on 255.255.255.255 (where `ip_object + 1` raises), or the primary and secondary configurations (header, then one block per SVI) |
| HsrpConfig.AppendSvi | create-hsrp-interface-configuration/create-hsrp-interface-configuration.py:66-83 | one SVI appends its primary block to the primary and its secondary block to the secondary |
| HsrpConfig.ConfigSnoc | create-hsrp-interface-configuration/create-hsrp-interface-configuration.py:44-83 | one more SVI appends exactly its block to the configuration |
| HsrpConfig.BlocksAt | create-hsrp-interface-configuration/create-hsrp-interface-configuration.py:67-83 | the blocks are 8 lines each and block `k` sits at lines `8k .. 8k + 8` |
| HsrpConfig.ConfigBlockAt | create-hsrp-interface-configuration/create-hsrp-interface-configuration.py:30-83 | a configuration has `3 + 8n` lines and SVI `k`'s block sits at lines `3 + 8k .. 3 + 8k + 8` |
| HsrpConfig.BlocksDifferOnlyInAddressAndPriority | create-hsrp-interface-configuration/create-hsrp-interface-configuration.py:67-83 | the two blocks agree except at the address line (which differs) and the priority line (255 vs 254) |
| HsrpConfig.AddressLineReadBack | create-hsrp-interface-configuration/create-hsrp-interface-configuration.py:69-78 | the `ip address` line splits into `ip address <own> <mask>`, both of which parse back to the planned address and the mask |
| HsrpConfig.AddressLineSplits | create-hsrp-interface-configuration/create-hsrp-interface-configuration.py:69-78 | the `ip address` line is four whitespace tokens |
| HsrpConfig.StandbyLineReadBack | create-hsrp-interface-configuration/create-hsrp-interface-configuration.py:53-71 | the `standby 1 ip` line carries the SVI's own address as the virtual address, which parses back |
| HsrpConfig.BlockNameLines | create-hsrp-interface-configuration/create-hsrp-interface-configuration.py:67-73 | the interface, description and key-string lines carry the interface name and VLAN id |
| HsrpConfig.BlockNamesOfVlanLine | create-hsrp-interface-configuration/create-hsrp-interface-configuration.py:49-73 | for `interface Vlan<digits>` the block repeats that line, describes `VLAN SVI <digits>` and uses key `vl<digits>` |
| ArpMigration.GetSviRecords | migrate-static-arp-entries/create-migration-templates.py:12-37 | one record per SVI in order, with its VLAN id and no ARP list yet |
| ArpMigration.ParseArpLine | migrate-static-arp-entries/create-migration-templates.py:67-72 | a line fails iff it has fewer than three tokens or its second token is not an address; otherwise the entry holds tokens 1 and 2 and the parsed address |
| ArpMigration.ParseAllOk | migrate-static-arp-entries/create-migration-templates.py:62-72 | all lines parse iff every line parses |
| ArpMigration.ParseAllValues | migrate-static-arp-entries/create-migration-templates.py:62-72 | entry `k` is the parse of line `k` |
| ArpMigration.ParseErrSticks | migrate-static-arp-entries/create-migration-templates.py:62-72 | the first line that fails decides the result |
| ArpMigration.FirstHostSvi | migrate-static-arp-entries/create-migration-templates.py:75-77 | the first SVI whose host range holds the address, or none holds it |
| ArpMigration.FirstHostSviAt | migrate-static-arp-entries/create-migration-templates.py:75-77 | an SVI holding the address with none before it is the one chosen |
| ArpMigration.Attach | migrate-static-arp-entries/create-migration-templates.py:75-88 | attaching keeps every SVI's VLAN, address and prefix |
| ArpMigration.AttachAt | migrate-static-arp-entries/create-migration-templates.py:75-88 | only the first matching SVI changes, gaining the entry at the end of its list (created if absent) |
| ArpMigration.AttachHit | migrate-static-arp-entries/create-migration-templates.py:75-88 | the records after attaching are the old ones with that SVI's list extended |
| ArpMigration.AttachEntry | migrate-static-arp-entries/create-migration-templates.py:75-88 | the loop over the SVIs with its `break` computes exactly that attachment |
| ArpMigration.AttachAll | migrate-static-arp-entries/create-migration-templates.py:62-88 | attaching all entries keeps every SVI's VLAN, address and prefix |
| ArpMigration.AssignStaticArps | migrate-static-arp-entries/create-migration-templates.py:60-88 | the ARP loop gives the first parse error, or all entries attached in order |
| ArpMigration.AttachAllContents | migrate-static-arp-entries/create-migration-templates.py:62-88 | an SVI's list is its old list followed by the entries assigned to it, in input order |
| ArpMigration.AssignedToSpec | migrate-static-arp-entries/create-migration-templates.py:75-88 | each entry under an SVI came from the input and has that SVI as its first host range |
| ArpMigration.UnplacedIsDropped | migrate-static-arp-entries/create-migration-templates.py:75-88 | an entry that no SVI's host range holds lands nowhere |
| ArpMigration.ArpLinesAt | migrate-static-arp-entries/create-migration-templates.py:95-96 | line `k` of an SVI's ARP lines is ` ip arp <host> <mac>` of entry `k` |
| ArpMigration.EmitTemplate | migrate-static-arp-entries/create-migration-templates.py:91-97 | the template loop gives exactly the specified template or the key error |
| ArpMigration.TemplateErrSticks | migrate-static-arp-entries/create-migration-templates.py:93-95 | once an SVI without a list has been met, the template is that error |
| ArpMigration.TemplateOk | migrate-static-arp-entries/create-migration-templates.py:91-97 | the template is written iff every SVI has a list; otherwise the error names the first SVI without one |
| ArpMigration.MigrationSucceeds | migrate-static-arp-entries/create-migration-templates.py:60-97 | starting from fresh records, the template is written iff every SVI receives at least one ARP entry |
| CliSplitter.Suffix | split_cli_output/split_cli_ouput.py:12 | the suffix is the extension with exactly one leading dot |
| CliSplitter.KeepEndingWithMembers | split_cli_output/split_cli_ouput.py:13 | a path is kept iff it is in the list and ends with the suffix |
| CliSplitter.KeepEndingWithAppend | split_cli_output/split_cli_ouput.py:13 | the filter keeps order: filtering a concatenation concatenates the filtered parts |
| CliSplitter.FilesWithExtensionSpec | split_cli_output/split_cli_ouput.py:11-16 | with no or an empty extension every path comes back; otherwise exactly the paths ending with the dotted extension |
| CliSplitter.Basename | split_cli_output/split_cli_ouput.py:60 | the base name holds no `/` |
| CliSplitter.BasenameSuffix | split_cli_output/split_cli_ouput.py:60 | the base name ends the path and follows its last `/` |
| CliSplitter.Hostname | split_cli_output/split_cli_ouput.py:60 | the host name holds no `/` |
| CliSplitter.HostnameOfLog | split_cli_output/split_cli_ouput.py:60 | for `<host>.log` the host name followed by `.log` is the base name |
| CliSplitter.PromptEnd | split_cli_output/split_cli_ouput.py:21 | `\S+#` at a position ends after the last `#` of the whitespace-free run, with at least one character before it |
| CliSplitter.SeparatorEnd | split_cli_output/split_cli_ouput.py:21 | a separator is found at a position iff a line break stands there followed by a prompt; it is a line break, a whitespace-free run and `#` |
| CliSplitter.SeparatorEndLongest | split_cli_output/split_cli_ouput.py:21 | where no separator is found no `\n\S+#` match starts, and a found separator is the longest match (greedy `\S+`) |
| CliSplitter.SeparatorRun | split_cli_output/split_cli_ouput.py:21 | every `\n\S+#` match is a line break and at least one non-space character before its final `#`, inside the whitespace-free run |
| CliSplitter.NextSeparator | split_cli_output/split_cli_ouput.py:21 | the first position at or after the start where a separator begins, with none before it |
| CliSplitter.Separators | split_cli_output/split_cli_ouput.py:21 | there is one separator fewer than pieces, and each is a prompt separator |
| CliSplitter.PiecesRejoin | split_cli_output/split_cli_ouput.py:21 | interleaving the pieces with the separators rebuilds the transcript, so `re.split` loses only the separators |
| CliSplitter.PiecesFirstCut | split_cli_output/split_cli_ouput.py:21 | `re.split` cuts at the leftmost separator, drops it and splits the rest again; with no further separator the piece runs to the end |
| CliSplitter.PiecesWithoutSeparator | split_cli_output/split_cli_ouput.py:21 | text in which no separator begins is one piece |
| CliSplitter.PiecesWithoutHash | split_cli_output/split_cli_ouput.py:21 | a transcript without `#` is one piece |
| CliSplitter.EntriesAt | split_cli_output/split_cli_ouput.py:29-40 | entry `i` is segment `i`'s entry |
| CliSplitter.SplitConfigFile | split_cli_output/split_cli_ouput.py:19-42 | the function computes the command map of the transcript |
| CliSplitter.StoreSegments | split_cli_output/split_cli_ouput.py:29-40 | the loop over the segments stores exactly their entries in order |
| CliSplitter.StoreSnoc | split_cli_output/split_cli_ouput.py:40 | one more entry is stored over the previous map, or changes nothing when absent |
| CliSplitter.StoreKeys | split_cli_output/split_cli_ouput.py:40 | a key is stored iff some entry has it |
| CliSplitter.StoreLastWins | split_cli_output/split_cli_ouput.py:40 | a key maps to the value of its last entry |
| CliSplitter.CommandsKeys | split_cli_output/split_cli_ouput.py:29-40 | a command is in the map iff some segment with output has it as its key |
| CliSplitter.CommandsLastWins | split_cli_output/split_cli_ouput.py:29-40 | a repeated command maps to the output of its last segment |
| CliSplitter.ShortSegmentIgnored | split_cli_output/split_cli_ouput.py:33 | a segment of fewer than two lines adds nothing |
| CliSplitter.EntryValue | split_cli_output/split_cli_ouput.py:30-40 | the stored output is the segment after its first line, less at most one final line break |
| CliSplitter.KeyAfterPrompt | split_cli_output/split_cli_ouput.py:35-36 | behind a prompt the key is the text after the first `#` up to the next `#` or the end of the line |
| CliSplitter.NoPromptNoCommands | split_cli_output/split_cli_ouput.py:19-42 | a transcript that does not start with a prompt and holds no `\n\S+#` match anywhere gives an empty map |
| CliSplitter.NoHashNoCommands | split_cli_output/split_cli_ouput.py:19-42 | a transcript without `#` gives an empty map |
| CliSplitter.HashInsideLineNoCommands | split_cli_output/split_cli_ouput.py:19-42 | a `#` inside a line that is not a prompt (`a #b`) gives an empty map |
| InterfaceDescriptionCleaner.FirstShortForm | cisco-nx-api-example/interface-description-cleaner.py:130-133 | the first mapping whose long form begins the name, or none begins it |
| InterfaceDescriptionCleaner.InterfaceShortener | cisco-nx-api-example/interface-description-cleaner.py:117-134 | the loop with its `break` computes the shortened name |
| InterfaceDescriptionCleaner.ShortNameCases | cisco-nx-api-example/interface-description-cleaner.py:123-134 | with no matching mapping the name is unchanged; otherwise the first matching mapping replaces every occurrence of its long form |
| InterfaceDescriptionCleaner.ReplaceLeadingLongForm | cisco-nx-api-example/interface-description-cleaner.py:131-132 | a leading long form with no other occurrence is replaced by the short form only |
| InterfaceDescriptionCleaner.ShortNameExamples | cisco-nx-api-example/interface-description-cleaner.py:123-134 | `Ethernet1/1` becomes `Eth1/1` and `TenGigabitEthernet1/1` becomes `Te1/1` |
| InterfaceDescriptionCleaner.NormalizeCommands | cisco-nx-api-example/interface-description-cleaner.py:45-47 | the normalised commands hold no line break and are the replaced text less at most one trailing ` ; ` |
| InterfaceDescriptionCleaner.NormalizeLines | cisco-nx-api-example/interface-description-cleaner.py:45-47 | one-line commands each followed by a line break become the commands joined by ` ; ` |
| InterfaceDescriptionCleaner.CleanRemoteHost | cisco-nx-api-example/interface-description-cleaner.py:161-163 | the cleaned host holds neither `(` nor `.` |
| InterfaceDescriptionCleaner.CleanRemoteHostPrefix | cisco-nx-api-example/interface-description-cleaner.py:161-163 | the cleaned host is the device id up to its first `(` or `.`, or all of it |
| InterfaceDescriptionCleaner.EntryOf | cisco-nx-api-example/interface-description-cleaner.py:161-174 | the entry's host is cleaned and its management address is copied |
| InterfaceDescriptionCleaner.HostNeighbors | cisco-nx-api-example/interface-description-cleaner.py:159-175 | one entry per neighbour, in order |
| InterfaceDescriptionCleaner.BuildChangeScript | cisco-nx-api-example/interface-description-cleaner.py:182-187 | the loop builds the change script, one description block per entry |
| InterfaceDescriptionCleaner.DescriptionBlockLines | cisco-nx-api-example/interface-description-cleaner.py:184-187 | a block is its `interface` line and its `description` line, each ended by a line break |
| InterfaceDescriptionCleaner.ChangeScriptLines | cisco-nx-api-example/interface-description-cleaner.py:182-187 | the change script is its lines joined and ended by line breaks |
| InterfaceDescriptionCleaner.ScriptLinesOneLine | cisco-nx-api-example/interface-description-cleaner.py:182-187 | entries without line breaks give script lines without line breaks |
| InterfaceDescriptionCleaner.SentCommands | cisco-nx-api-example/interface-description-cleaner.py:182-190 | the script sent over NX-API is its lines joined by ` ; `, with no trailing separator |
| CdpTopology.FirstLabelContaining | automate-ssh-with-netmiko/collect-cdp-information.py:123-127 | the first node whose label contains the name as a substring, or none does |
| CdpTopology.FindNode | automate-ssh-with-netmiko/collect-cdp-information.py:123-127 | the search loop with its `break` finds no node iff none matches, and otherwise that first node |
| CdpTopology.BumpAt | automate-ssh-with-netmiko/collect-cdp-information.py:131-134 | each edge to the node gains 10 and the extra title; other edges stay |
| CdpTopology.BumpLinks | automate-ssh-with-netmiko/collect-cdp-information.py:131-134 | the edge loop computes exactly that update |
| CdpTopology.BuildTopology | automate-ssh-with-netmiko/collect-cdp-information.py:80-138 | the row loop builds the specified nodes, edges and found hosts, with the counter one past the last node |
| CdpTopology.BumpValid | automate-ssh-with-netmiko/collect-cdp-information.py:131-134 | bumping edges keeps the diagram's shape |
| CdpTopology.StepValid | automate-ssh-with-netmiko/collect-cdp-information.py:81-138 | every row keeps the shape |
| CdpTopology.AddValid | automate-ssh-with-netmiko/collect-cdp-information.py:95-119 | adding a new neighbour keeps the shape |
| CdpTopology.BuildValid | automate-ssh-with-netmiko/collect-cdp-information.py:80-138 | ids are 1, 2, …; the root comes first, then one attached node and one edge per found host; edge values are non-negative multiples of 10; no host is found twice |
| CdpTopology.BuildCounter | automate-ssh-with-netmiko/collect-cdp-information.py:80-119 | the counter is always one past the last node id |
| CdpTopology.RootIsFirstRowsDevice | automate-ssh-with-netmiko/collect-cdp-information.py:82-91 | node 1 is the first row's local device, grouped `root_device`, and stays first |
| CdpTopology.FoundHostsAreNeighbours | automate-ssh-with-netmiko/collect-cdp-information.py:94-118 | a host is found iff some row names it as its neighbour |
| CdpTopology.RepeatedNeighbour | automate-ssh-with-netmiko/collect-cdp-information.py:121-134 | a repeated neighbour adds no node or host and only bumps edges to the first node whose label contains it; when that node is the root nothing changes |
| CdpTopology.NewNeighbour | automate-ssh-with-netmiko/collect-cdp-information.py:95-119 | a new neighbour appends one attached node with the next id and one edge of value 0 from the root |

## Left out

- Device and library I/O becomes input values or is not modelled. This covers file reads
  and writes, `os.walk`, `os.makedirs`, SSH through netmiko, the NX-API HTTP calls and
  their JSON payloads, `webbrowser`, the `data.js` output, and every `print`.
- CiscoConfParse is not part of this model. SVIs arrive as their `interface` line plus the
  address and prefix of their `ip address` child. ARP lines arrive as their text.
  `append_line` and `save_as` become list appends.
- TextFSM and its template file are not part of this model. CDP rows arrive as seven-field
  records, and the meaning of each column is taken from how the script uses it.
- The Jinja2 rendering of each parameter dictionary is not modelled; only the dictionaries
  and the output file name are.
- The NX-API cleaner's wrapping of a single neighbour dictionary into a list (lines
  155-157) is not modelled; neighbours arrive as a list. This also covers the
  per-host dictionary of results (lines 145-177).
- The JSON, YAML, inventory and regular-expression example scripts are not part of this
  model.
- `hosts()` for /31 and /32 networks is not modelled. Every member that asks whether an
  address is a host requires a prefix of at most 30: `Ipv4.IsHost`,
  `HsrpConfig.PeerAddresses`, `HsrpConfig.AllPlannable` and `ArpMigration.AllPlannable`.
  On a /31 or /32 SVI the model says nothing.
- HsrpConfig.GenerateConfigs: on an SVI at 255.255.255.255 the script raises at line 59
  before writing anything; the model returns the error and drops the partial
  configurations.
- `splitlines()` is modelled as splitting on `\n` only. Python's other line boundaries
  (`\r`, `\r\n`, `\v`, `\f`, `\x1c`-`\x1e`, `\x85`, `\u2028`, `\u2029`) are not.
- `str.split()`, `\s` and `\S` use the whitespace of Python's `str.isspace()`: code points
  9-13 and 28-32, U+0085, U+00A0, U+1680, U+2000-U+200A, U+2028, U+2029, U+202F, U+205F
  and U+3000. Characters that are whitespace only under other Unicode properties are not
  distinguished further.
- `IPv4Address` is modelled as accepting exactly four dot-separated decimal octets from 0
  to 255 without leading zeros. It raises on anything else.
- ArpMigration.ParseArpLine: the `IndexError` of a line with fewer than three tokens is the
  `MissingFields` error. Any error ends the script before the template is written, so the
  model parses every line before attaching any.
- ArpMigration.GetSviRecords: the record holds the address and prefix as values rather than
  the `str(ip)` / `str(netmask)` texts, which `IPv4Network` parses again at line 76.
- HsrpConfig.AppendSvi: the eight `append_line` calls per configuration are one
  concatenation of an eight-line block.
- CdpTopology.NodeTitle: the HTML titles are modelled as plain concatenations. Only their
  shape is stated.
- CdpTopology.Edge: the constant `font` setting of each edge is not modelled.
- CdpTopology.ExtraTitle: the extra edge title uses columns 4 then 5, the reverse of the
  first title at line 110. This is modelled as written.
- CdpTopology.Step: the "not found" branch (lines 136-138) only prints, so the model leaves
  the topology unchanged there.
- Python dictionaries keep insertion order; the model's maps do not. The CLI splitter's
  and the CSV generator's dictionaries are modelled as maps.
- CliSplitter.SplitConfigFile: the guard `len(split_config) > 0` at line 24 always holds,
  because `re.split` returns at least one piece, so it is not modelled as a branch.
- The `command.strip()` file name at line 69 is not modelled.
- The NX-API cleaner loops over `hosts` with the name `target_host`. The host list and the
  device credentials are configuration that is not part of this model.
