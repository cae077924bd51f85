# netmiko interface manager: a verified model of its core

The repository automates Cisco devices over netmiko. It offers two programs:

- `netmiko_project.py` is an interactive menu. It shows, creates, assigns and deletes interfaces. It keeps the networks it has handed out in a TinyDB table.
- `RouterNetmiko.py` is a one-shot script. It reads a loopback definition from YAML, renders it through a Jinja template and sends it to a router.

This Dafny project models the sequential layer under the I/O. The modules are:

- **Ipv4** (`ipv4.dfy`): IPv4 addresses and networks as Python's `ipaddress` treats them, with CIDR prefix lengths as in section 3.1 of RFC 4632. It covers:
  - dotted-quad parsing and formatting;
  - prefixes given as lengths, netmasks or hostmasks;
  - strict and non-strict networks, the broadcast address and `hosts()`;
  - `calculate_subnet_mask` and `get_next_ip_address`.

  The semantics are those of Python 3.9.5 and later: an octet with a leading zero is refused, `hosts()` of a /31 lists both addresses, and `hosts()` of a /32 lists the address itself.
- **DottedQuads** (`dotted_quads.dfy`): `get_all_ip_addresses`, the regular expression `[0-9]{1,3}\.[0-9]{1,3}\.[0-9]{1,3}\.[0-9]{1,3}` under `re.findall`. It is written as a left-to-right scanner and proved against an independent description of a dotted-quad literal.
- **AddressLedger** (`ledger.dfy`): the TinyDB table of reserved networks, as a class holding the ordered list of its CIDR texts. It models:
  - `check_ip_format`, which asks whether an address is free;
  - `edit_db`, which appends a record, or releases the first record whose network holds an address.
- **InterfaceCatalog** (`catalog.dfy`): `get_all_interfaces_of_type` and `check_name`, over the interface names the device reports.
- **InterfaceConfig** (`interface_config.dfy`): the configuration-text slicing. It covers:
  - the stanza from the first "interface";
  - the first line;
  - the host name;
  - `check_in_use`;
  - the commands and the ledger release of `delete` and `delete_physical`.
- **Transport**, **NetmikoSession** and **RouterNetmiko** (`transport.dfy`, `netmiko_session.dfy`, `router_netmiko.dfy`): the two versions of `make_connection`. The outcome of each connect call is read from an oracle, in call order, and the `show ver` banner is a parameter. **RouterNetmiko** also models `YamlReader.read_loopback`, which rewrites the loaded YAML document in place.
- **CommandLines** (`command_lines.dfy`): `convert_to_list` and the last step of both `generate_commands`, which split the rendered template text at newlines.
- **PyText** and **Wrappers** (`pytext.dfy`, `wrappers.dfy`) model the Python string operations the code relies on. These are `find`, slicing with `find == -1`, `in`, `split` and `join`. They also model the exceptions it raises or catches.

The model follows the code as written on these points, where it does less than, or something other than, what its names suggest:

- The ledger check does not refuse the reserved network's own address for prefixes up to /30. Only hosts and the broadcast address are compared.
- Interface types are matched by substring (`"Ethernet" in name`), not by prefix.
- `check_name` compares names exactly, with no trimming or case folding.
- Releasing an address that no record holds changes nothing and reports "".
- A release removes every record whose text equals the first holding record. TinyDB's `remove(where(...) == text)` does this, so duplicates go together, and the records that stay keep their order.
- `delete` hands `send_config_commands` the single string `"no <line>"`. Netmiko treats a string as a one-command list, and the model records it as that list.

## Model

| member | source | states |
|---|---|---|
| Ipv4.BroadcastIsLast | netmiko_project.py:264-265 | `broadcast_address` is in the network and no address of the network exceeds it |
| Ipv4.NetworkBaseIsMod | netmiko_project.py:263 | the network address, `address & netmask`, is the address rounded down to a multiple of the block size |
| Ipv4.InNetworkRange | netmiko_project.py:350 | `address in network` holds exactly when the address lies between the network address and the broadcast address |
| Ipv4.MaskIsTopBits | netmiko_project.py:285-286 | the netmask of prefix p is the 32-bit value with exactly its top p bits set |
| Ipv4.PrefixOfMask | netmiko_project.py:285 | a dotted mask after the slash gives a prefix whose netmask it is |
| Ipv4.PrefixOfMaskComplete | netmiko_project.py:285 | the search comes back empty exactly when no prefix has that netmask |
| Ipv4.ParseNetwork | netmiko_project.py:263 | a strict `IPv4Network` has no host bits set |
| Ipv4.AddressRoundTrip | netmiko_project.py:260-261 | formatting an address and parsing the text gives the address back |
| Ipv4.AddressCanonical | netmiko_project.py:260-261 | every text `IPv4Address` accepts is the canonical text of its value: no leading zeros, four octets |
| Ipv4.CidrRoundTrip | netmiko_project.py:285 | `a/p` text parses back to the same address and prefix |
| Ipv4.CidrAddressText | netmiko_project.py:259 | the text before the slash of `a/p` is the dotted quad of `a` |
| Ipv4.SubnetMask | netmiko_project.py:276-286 | `calculate_subnet_mask`, `ip_interface(t).netmask.compressed`, with ValueError for text that is no IPv4 interface; SubnetMaskOfPrefix and SubnetMaskWithoutSlash state what it answers |
| Ipv4.SubnetMaskOfPrefix | netmiko_project.py:276-286 | the mask of `a/p` is the dotted quad with the top p bits set, whatever host bits `a` carries |
| Ipv4.SubnetMaskWithoutSlash | RouterNetmiko.py:69-79 | an address without a slash is a /32 interface, whose mask is 255.255.255.255 |
| Ipv4.CollectHosts | netmiko_project.py:299-302 | the loop over `network.hosts()` collects exactly the usable hosts, in order |
| Ipv4.FirstHost | netmiko_project.py:289-306 | what `get_next_ip_address` returns, the text of `hosts()[0]` or None on ValueError; FirstHostOf and FirstHostNone state its value |
| Ipv4.NextIpAddress | netmiko_project.py:289-306 | the method answers the first usable host of a strict network, and None on ValueError |
| Ipv4.FirstHostNone | netmiko_project.py:300-306 | the answer is None exactly for text that is no network or has host bits set |
| Ipv4.FirstHostOf | netmiko_project.py:300-303 | the first host is the network address + 1 for prefixes up to /30, and the network address itself for /31 and /32 |
| DottedQuads.AllIpAddresses | netmiko_project.py:309-320 | `get_all_ip_addresses`, `re.findall` of the dotted-quad pattern from the start of the text; FindAllSound, NoAddressesIffNoLiteral and FirstAddress state what it returns |
| DottedQuads.MatchShaped | netmiko_project.py:318 | every match the scanner makes covers four groups of one to three digits separated by dots |
| DottedQuads.ShapedMatches | netmiko_project.py:318 | the scanner matches wherever such a literal starts, and its match reaches at least to the literal's end |
| DottedQuads.MatchLongest | netmiko_project.py:318 | a match is the longest literal starting at its position, as the greedy last `[0-9]{1,3}` takes it |
| DottedQuads.FindAllSound | netmiko_project.py:318 | every text `findall` returns is a dotted-quad literal occurring in the input |
| DottedQuads.FindAllEmpty | netmiko_project.py:318 | `findall` from a position is empty exactly when no match starts at or after it |
| DottedQuads.FindAllFirst | netmiko_project.py:318 | the first result is the match at the leftmost position where one starts, and no literal from that position reaches beyond it |
| DottedQuads.FirstAddress | netmiko_project.py:318-319 | the first address returned is the first literal of the text: no literal starts earlier and none from its start is longer |
| DottedQuads.FirstLiteralUnique | netmiko_project.py:318-319 | the first literal of a text is a single slice |
| DottedQuads.LiteralIffMatch | netmiko_project.py:318 | the input holds a literal exactly when the pattern matches somewhere |
| DottedQuads.NoAddressesIffNoLiteral | netmiko_project.py:318 | `get_all_ip_addresses` is empty exactly when the text holds no dotted-quad literal |
| DottedQuads.NoDotNoAddress | netmiko_project.py:318 | a text without a dot yields no address |
| AddressLedger.Available | netmiko_project.py:249-273 | what `check_ip_format` answers: the address part parses and every record is a strict network reserving it neither as a host nor as the broadcast address |
| AddressLedger.Release | netmiko_project.py:347-353 | what the release branch of `edit_db` answers and leaves in the table: ValueError, "" and no change, or the first holding record removed with every copy; ScanMatchMeans, ReleaseFirstHolder, ReleaseUnheld and ReleaseKeepsOrder state its cases |
| AddressLedger.Scan | netmiko_project.py:348-352 | the release loop stops at a record of the table |
| AddressLedger.Without | netmiko_project.py:351 | the removal never adds records, and no copy of the removed text remains |
| AddressLedger.WithoutKeepsOthers | netmiko_project.py:351 | every other text stays, as often as before |
| AddressLedger.WithoutSubsequence | netmiko_project.py:351 | the records that stay keep their order, duplicates of the removed text or not; with Without and WithoutKeepsOthers this makes the removal the order-keeping filter |
| AddressLedger.Ledger.CheckIpFormat | netmiko_project.py:249-273 | the answer is true exactly when the address part parses and every record is a strict network reserving it neither as a host nor as the broadcast address; a ValueError is answered with false |
| AddressLedger.Ledger.Reserves | netmiko_project.py:264-267 | the host loop finds the address exactly when it is a host or the broadcast address of the network |
| AddressLedger.Ledger.Insert | netmiko_project.py:343-345 | adding appends exactly one record holding the given text and leaves the earlier records unchanged |
| AddressLedger.Ledger.Remove | netmiko_project.py:347-353 | the answer and the new table are the release of the address from the old table |
| AddressLedger.ScanBadAddress | netmiko_project.py:349-350 | an address that does not parse raises ValueError as soon as there is a record |
| AddressLedger.ScanMatchAt | netmiko_project.py:348-352 | the first record holding the address, after records that all miss it, is the one released |
| AddressLedger.ScanFaultAt | netmiko_project.py:350 | a record that is not a strict network, reached before any holder, raises ValueError |
| AddressLedger.ScanMissesAll | netmiko_project.py:348-353 | when every record misses the address, nothing is released |
| AddressLedger.ScanMatchMeans | netmiko_project.py:348-352 | a release always picks the first holding record, after records that all parse and miss |
| AddressLedger.ScanNoMatchMeans | netmiko_project.py:348-353 | nothing released from a non-empty table means every record parses and misses the address |
| AddressLedger.ConflictRule | netmiko_project.py:262-267 | up to /30 an address conflicts exactly when it lies above the network address and at most the broadcast address; for /31 and /32 the network address conflicts too |
| AddressLedger.ConflictsInside | netmiko_project.py:264-265 | every conflicting address lies in the network |
| AddressLedger.NetworkRoundTrip | netmiko_project.py:263 | the text of a network without host bits parses back strictly |
| AddressLedger.AddressPartOfCidr | netmiko_project.py:259 | the address part of `a/p` parses to `a` |
| AddressLedger.OwnNetworkAddressAccepted | netmiko_project.py:262-268 | a table holding `n/p` with p up to 30 still accepts `n/p` itself |
| AddressLedger.PrefixIgnored | netmiko_project.py:259 | the candidate's prefix length plays no part in the answer |
| AddressLedger.AddressPartWithoutSlash | netmiko_project.py:259 | a candidate without a slash loses its last character before it is parsed |
| AddressLedger.ReservedRefused | netmiko_project.py:264-267 | a host or the broadcast address of any reserved network is refused |
| AddressLedger.MalformedRecordRefuses | netmiko_project.py:262-273 | a record that is not a strict network makes every check answer false |
| AddressLedger.EmptyLedgerAccepts | netmiko_project.py:262-268 | an empty table accepts every `a/p` |
| AddressLedger.WithoutUnique | netmiko_project.py:351 | a text occurring once is removed from its place, the others keep their order |
| AddressLedger.WithoutAbsent | netmiko_project.py:351 | removing a text that does not occur changes nothing |
| AddressLedger.WithoutLast | netmiko_project.py:343-353 | removing a just-appended, otherwise absent text restores the table |
| AddressLedger.ReleaseFirstHolder | netmiko_project.py:347-353 | a release removes the first holding record, and only it when its text is unique, keeping the rest in order |
| AddressLedger.ReleaseKeepsOrder | netmiko_project.py:347-353 | whatever a release answers, the table left is the old one with records left out and the rest in order, and every text other than the released one stays as often as before |
| AddressLedger.ReleaseUnheld | netmiko_project.py:347-353 | releasing an address no record holds answers "" and leaves the table unchanged |
| AddressLedger.InsertThenRelease | netmiko_project.py:343-353 | adding a network and releasing one of its addresses answers that network and restores the table |
| InterfaceCatalog.InterfacesOfType | netmiko_project.py:408-430 | the loops compute the type's list: three dotless passes for Physical, names with a dot for Vlan, otherwise names containing the type text |
| InterfaceCatalog.CheckName | netmiko_project.py:390-406 | a name is free exactly when the type's list does not hold it |
| InterfaceCatalog.PassSubsequence | netmiko_project.py:416-429 | every pass keeps device order: its result is a subsequence of the device list |
| InterfaceCatalog.PassMembers | netmiko_project.py:419-429 | a name is in a pass exactly when the device lists it and the pass's test accepts it |
| InterfaceCatalog.PassCount | netmiko_project.py:419-429 | a pass lists an accepted name as often as the device does, and other names never |
| InterfaceCatalog.VlanNames | netmiko_project.py:424-427 | Vlan lists exactly the device's names containing a dot, in device order |
| InterfaceCatalog.OtherNames | netmiko_project.py:428-430 | any other type lists exactly the names containing the type text, in device order |
| InterfaceCatalog.PhysicalPasses | netmiko_project.py:418-423 | the Physical list is the Ethernet pass, then the Serial pass, then the BRI pass |
| InterfaceCatalog.PhysicalNames | netmiko_project.py:418-423 | a dotted name never appears in the Physical list; a dotless name appears once per text it contains, as often as the device lists it; each group keeps device order |
| InterfaceCatalog.NameTakenExactly | netmiko_project.py:399-406 | for other types a name is free exactly when the device does not list it or it lacks the type text; no normalisation |
| InterfaceConfig.InterfaceStanza | netmiko_project.py:470 | the slice is the suffix from the first "interface": it starts with "interface" and no earlier position holds one; without one it is the last character |
| InterfaceConfig.DeletePlan | netmiko_project.py:550-562 | without a dotted-quad literal, `[0]` raises IndexError; otherwise the command is "no " and the first line, and the release is the first literal of the text |
| InterfaceConfig.CheckInUse | netmiko_project.py:574-585 | the interface is free exactly when its configuration holds no dotted-quad literal |
| InterfaceConfig.SerialPlan | netmiko_project.py:640-646 | the Serial teardown commands and the release of the first literal from "ip address" on, or IndexError when there is none |
| InterfaceConfig.Delete | netmiko_project.py:550-562 | on IndexError nothing is sent and the table is unchanged; otherwise the plan's command is sent and its address released from the table |
| InterfaceConfig.DeletePhysicalInterface | netmiko_project.py:633-654 | the same, for the corrected `delete_physical` |
| InterfaceConfig.Hostname | netmiko_project.py:161-170 | `get_hostname`'s two slices of `show run`; HostnameOfLine and HostnameMissing state what they give |
| InterfaceConfig.FirstLine | netmiko_project.py:559 | `details[:details.find("\n")]`; FirstLineOf and FirstLineWithoutNewline state what it gives |
| InterfaceConfig.DeletePhysicalAsWritten | netmiko_project.py:633-654 | `delete_physical` as written, handing the name to `delete`; AsWrittenNonSerialFails states its outcome |
| InterfaceConfig.DeletePhysical | netmiko_project.py:633-654 | `delete_physical` with the stanza handed to `delete`; CorrectedNonSerialDeletes and SerialBranchUnchanged state its outcome |
| InterfaceConfig.HostnameOfLine | netmiko_project.py:161-170 | with "hostname " first at a line start, the host name is the rest of that line |
| InterfaceConfig.HostnameMissing | netmiko_project.py:168 | without "hostname", `find` gives -1 and the name is read from position 8 on |
| InterfaceConfig.FirstLineOf | netmiko_project.py:559 | the first line of a text with a newline is the text before it |
| InterfaceConfig.FirstLineWithoutNewline | netmiko_project.py:559 | a text without a newline loses its last character |
| InterfaceConfig.DeleteCommandOfStanza | netmiko_project.py:559-560 | deleting a stanza that starts with `interface X` sends `no interface X` |
| InterfaceConfig.AsWrittenNonSerialFails | netmiko_project.py:653-654 | as written, every non-Serial interface of the Physical menu makes the delete raise IndexError |
| InterfaceConfig.CorrectedNonSerialDeletes | netmiko_project.py:653-654 | as intended, a non-Serial stanza holding an address is deleted with "no " and its first line, releasing its first literal |
| InterfaceConfig.SerialBranchUnchanged | netmiko_project.py:640-652 | the correction leaves the Serial branch and its teardown commands unchanged |
| Transport.DialEffect | netmiko_project.py:121 | a connect call is logged after the earlier calls with the current device type, and the link changes only when it connects |
| Transport.TryBlock | netmiko_project.py:120-127 | the `try` block both versions share: connect, `show ver`, and on a Nexus banner disconnect and reconnect as `cisco_nxos`; the lemmas below state its cases |
| NetmikoSession.Connection | netmiko_project.py:119-135 | `make_connection` with its typed `except` clauses; PlainDevice to ConnectionEnding state its cases |
| NetmikoSession.Session.constructor | netmiko_project.py:108-117 | a new session holds the given device type and no connection |
| NetmikoSession.Session.ConnectHandler | netmiko_project.py:121 | the session state after one `ConnectHandler` call |
| NetmikoSession.Session.MakeConnection | netmiko_project.py:119-135 | the new state and the way the method ends are those of the connection function of netmiko_project.py |
| NetmikoSession.PlainDevice | netmiko_project.py:121-124 | without "Nexus" in the banner: one connect, device type kept, link open |
| NetmikoSession.NexusReconnects | netmiko_project.py:124-127 | a Nexus banner leads to disconnect, `cisco_nxos` and exactly one reconnect |
| NetmikoSession.TimeoutOnFirstConnect | netmiko_project.py:128-131 | a timeout on the first connect leads to exactly one fallback connect, as `cisco_iso_telnet` |
| NetmikoSession.TimeoutOnReconnect | netmiko_project.py:126-131 | a timeout on the NX-OS reconnect leads to exactly one fallback connect, as `cisco_iso_telnet` |
| NetmikoSession.AuthFailureStops | netmiko_project.py:134-135 | an authentication failure on the first connect is reported and no other connect call is made |
| NetmikoSession.OtherErrorEscapes | netmiko_project.py:119-135 | any other exception on the first connect leaves `make_connection` after one connect call |
| NetmikoSession.TriedDialects | netmiko_project.py:119-135 | one to three connect calls, the first with the given device type, the last with the device type left in the session |
| NetmikoSession.ConnectionEnding | netmiko_project.py:128-135 | a quiet return leaves an open link of the last device type; only a timeout or an unnamed exception escapes |
| RouterNetmiko.Session.constructor | RouterNetmiko.py:10-16 | a new session holds the given device type and no connection |
| RouterNetmiko.Session.ConnectHandler | RouterNetmiko.py:21 | the session state after one `ConnectHandler` call |
| RouterNetmiko.Session.MakeConnection | RouterNetmiko.py:18-32 | the new state and the way the method ends are those of the bare-`except` connection function |
| RouterNetmiko.NeverRaises | RouterNetmiko.py:27-32 | nothing escapes this `make_connection`, and a quiet return leaves an open link |
| RouterNetmiko.Connection | RouterNetmiko.py:18-32 | `make_connection` with its bare `except:` clauses; NeverRaises and the two fallback lemmas state its cases |
| RouterNetmiko.AnyFirstFailureFallsBack | RouterNetmiko.py:20-30 | any failure of the first connect, an authentication failure included, leads to exactly one telnet connect and nothing escapes |
| RouterNetmiko.FailedReconnectFallsBack | RouterNetmiko.py:23-30 | any failure of the NX-OS reconnect leads to exactly one telnet connect as well, and nothing escapes |
| RouterNetmiko.VersionsAgree | RouterNetmiko.py:18-32 | the two versions agree exactly when the first block succeeds, or times out and the telnet connect succeeds or fails authentication |
| RouterNetmiko.FormatIpAddress | RouterNetmiko.py:82-84 | `format_ip_address`, the text before the first "/"; the next two lemmas state what it gives |
| RouterNetmiko.FormatIpAddressOfCidr | RouterNetmiko.py:82-84 | the address of `a/p` text is the dotted quad of `a` |
| RouterNetmiko.FormatIpAddressWithoutSlash | RouterNetmiko.py:84 | without a slash, `find` gives -1 and the last character is cut off |
| RouterNetmiko.YamlReader.constructor | RouterNetmiko.py:56-66 | the reader holds the loaded document |
| RouterNetmiko.YamlReader.ReadLoopback | RouterNetmiko.py:86-95 | the answer is the read of the old document; on success the document holds the rewritten Loopback entry, on failure it is unchanged |
| RouterNetmiko.LoopbackOf | RouterNetmiko.py:86-95 | what `read_loopback` answers for a document; LoopbackErrors, LoopbackOfCidr and LoopbackOfBareAddress state its cases |
| RouterNetmiko.LoopbackErrors | RouterNetmiko.py:92-93 | a missing "Loopback" or "ip" key raises KeyError, an unreadable "ip" raises ValueError, and nothing else fails |
| RouterNetmiko.LoopbackOfCidr | RouterNetmiko.py:92-95 | for `a/p` the mask is the top p bits from the original text, "ip" becomes `a`, and every other key keeps its value |
| RouterNetmiko.LoopbackOfBareAddress | RouterNetmiko.py:92-94 | a bare dotted quad reads as a /32: the mask is all ones and "ip" loses its last character |
| RouterNetmiko.SecondRead | RouterNetmiko.py:92-94 | reading twice gives the host mask and cuts the address's last character off |
| CommandLines.ConvertToList | RouterNetmiko.py:108-118 | one command more than there are newlines, none holding a newline, and joining them with newlines gives the rendered text back |
| CommandLines.CommandsRoundTrip | netmiko_project.py:386-388 | commands without newlines, joined by newlines and split again, come back one by one |
| CommandLines.TrailingNewline | RouterNetmiko.py:129-132 | a rendering ending in a newline yields an empty last command |
| CommandLines.SingleLine | RouterNetmiko.py:118 | a one-line rendering is one command |

## Findings

| source | as written | input that shows it | evidently intended | confidence | as-written member | corrected member |
|---|---|---|---|---|---|---|
| netmiko_project.py:654 | the non-Serial branch of `delete_physical` calls `self.delete(interface_details=interface_to_delete)` with the interface name | any Physical interface that is not Serial, such as `GigabitEthernet0/0`: its name has no dot, so no address is found and `[0]` raises IndexError | pass the stanza `interface_details` read at 636-637, so the interface is deleted and its address released | not executed | InterfaceConfig.DeletePhysicalAsWritten (lemma InterfaceConfig.AsWrittenNonSerialFails) | InterfaceConfig.DeletePhysical (lemma InterfaceConfig.CorrectedNonSerialDeletes) |

## Left out

- Console I/O is not modelled: prompts, menus, printed messages, `UserInput`, `get_user_interface`, `show`, `create`, `assign` and `Main`. The interface chosen from a menu is a parameter.
- `ping` and `write_output` are left out, because they are a system call and file output.
- `FullConfig.show_running_config` only prints device output, so it is left out.
- `Vlan.create_vlan` is an empty stub and has no behaviour to model.
- Jinja rendering is outside the model: the rendered template text is an input string.
- YAML loading is outside the model. `YamlReader` receives the parsed document, and its values are modelled as strings only.
- TinyDB storage is modelled as an in-memory list of texts. Files, persistence and the table's creation are not part of this model.
- Netmiko is represented only by the outcome of each connect call and the `show ver` banner. `send_command` output other than those inputs is not modelled, nor are `send_config_set` effects on the device or the other `ConnectHandler` fields.
- Only the `interface` field of each TextFSM entry is modelled, so an entry is its name.
- NetmikoSession.Session.MakeConnection: a failure of `send_command('show ver')` or `disconnect()` is not modelled. Only connect calls fail in the model.
- IPv6 is outside the model. Any text `IPv4Address` refuses is a ValueError, as the code's `except` clauses treat it.
- Python's own exception types are reduced to ValueError, IndexError, KeyError and the netmiko timeout and authentication failures.
