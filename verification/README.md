# CDP neighbour collection and draw.io topology, in Dafny

This project models the pure logic of `network-automation-and-topology-scripts.py`. The script logs into a list of Cisco IOS devices and reads each device's CDP neighbours. It optionally rewrites each local interface's description to name the far end, collects one table row per neighbour, cleans the table, and emits draw.io graph elements. The model covers that pipeline from text to table to graph:

- `InterfaceNames` (`interfaces.dfy`) models `convert_interface_name`. It rewrites the first of ten anchored long prefixes (`GigabitEthernet` → `Gi`, …, `Loopback` → `Lo`). The table is prefix-free, so the rule order does not matter.
- `Cdp` (`cdp.dfy`) models the `re.findall` over `show cdp neighbors detail`.
  - The pattern is `Device ID: (.+?)\n.+?Interface: (.+?),\s+Port ID \(outgoing port\): (.+?)\n` with `DOTALL`.
  - It is written as a deterministic staged scanner: each lazy group takes the first position from which the rest of the pattern can still continue.
  - It is proved against a declarative `MatchesAt`, which is the language of the pattern. The proofs cover soundness, completeness and the backtracking engine's choice among matches, as well as the scan's left-to-right, non-overlapping and stop-at-first-failure behaviour.
- `Hostname` (`hostname.dfy`) models `re.search(r'(\S+)\s+uptime', …).group(1)`. The result is an error value where `.group` would raise on `None`.
- `Collector` (`collector.dfy`) models one device's rows `[hostname, shortened local interface, remote port, neighbour id]`. It also covers the update-mode command sequence, the exception handler that makes a failing device contribute nothing, and the accumulation over hosts in input order.
- `Distinct` (`distinct.dfy`) models keep-first duplicate removal, which is `drop_duplicates(keep='first')` over whole rows. It also holds the hashing loop that computes it.
- `Table` (`table.dfy`) models the clean-up of lines 77-80.
  - The frame is stacked on a copy whose columns were renamed positionally, and exact duplicates are dropped.
  - The result is the symmetric closure of the table, without repeated rows.
  - The comment at line 76 speaks of removing overlapping connections, but a link reported from both of its ends keeps both rows. A link reported from one end gains its reverse.
- `Drawio` (`drawio.dfy`) models `generate_drawio_xml`.
  - There is one node per hostname, created at first sight, with Hostname-A looked at before Hostname-B.
  - There is one edge per row, labelled `Interface-A to Interface-B`, from the node of Hostname-A to the node of Hostname-B.
  - Every node has the fixed geometry (100, 100, 80, 80).
- `Topology` (`topology.dfy`) composes the steps as lines 153-173 run them.
- `Text` (`text.dfy`), `Wrappers` (`wrappers.dfy`) and `Sequences` (`sequences.dfy`) hold the string searches, the `Option`/`Result` types, and the flattening and mapping of sequences that the rest shares.

The model follows the code in three places where a reader's expectation of the script differs from what it does:
- The interface conversion is not idempotent (`InterfaceNames.ConvertNotIdempotent`).
- The clean-up does not halve a table in which every link is reported from both ends (`Table.DedupBothEnds`).
- A neighbour block without its `Interface:` line is not skipped. Under `DOTALL` the match runs on into the next block, and once the pattern fails at one `Device ID: ` the scan finds nothing more (`Cdp.NoLaterMatch`, `Cdp.ScanStopsAtFailure`).

The script's I/O is replaced by data:
- A device is `None` when its session could not be opened. Otherwise it is the pair of texts it returned for `show cdp neighbors detail` and `show version`.
- Update mode is a boolean.
- The configuration commands the script would send are returned as a list of `Command` values.
- The random `uuid4` identifiers are replaced by the element's position in the output. Each call of the generator creates exactly one element, so the identifiers are distinct, which is all the builder relies on.

## Model

| member | source | states |
|---|---|---|
| InterfaceNames.Rewrite | network-automation-and-topology-scripts.py:22-25 | with no matching rule the name is returned unchanged; otherwise the first matching rule's short form replaces its long prefix and the rest of the name is kept |
| InterfaceNames.RewriteUnique | network-automation-and-topology-scripts.py:22-25 | in a prefix-free rule table the result is the replacement of any matching rule, whatever its position |
| InterfaceNames.RewriteOrderIndependent | network-automation-and-topology-scripts.py:10-24 | two prefix-free tables with the same rules convert every name identically, so the dictionary's iteration order does not matter |
| InterfaceNames.RulesPrefixFree | network-automation-and-topology-scripts.py:10-21 | no long prefix of the ten rules is a prefix of another |
| InterfaceNames.ConvertInterfaceName | network-automation-and-topology-scripts.py:9-25 | a name starting with a long prefix becomes its short form followed by the untouched remainder; a name matching no rule is returned unchanged |
| InterfaceNames.ConvertLongForm | network-automation-and-topology-scripts.py:9-25 | each long form followed by any suffix becomes the short form followed by the same suffix |
| InterfaceNames.ConvertFixedIff | network-automation-and-topology-scripts.py:22-25 | a name is left unchanged exactly when no rule matches it |
| InterfaceNames.ShortFormMatchesNothing | network-automation-and-topology-scripts.py:10-21 | a short form followed by nothing or by a digit matches no long prefix |
| InterfaceNames.CanonicalIsFixed | network-automation-and-topology-scripts.py:9-25 | an already shortened slot name is a fixed point |
| InterfaceNames.ConvertIdempotentOnSlotNames | network-automation-and-topology-scripts.py:9-25 | converting twice equals converting once when the remainder after the matched prefix is empty or starts with a digit |
| InterfaceNames.ConvertReformsPrefix | network-automation-and-topology-scripts.py:9-25 | a long prefix followed by that prefix minus its first two letters converts back into the long prefix |
| InterfaceNames.ConvertNotIdempotent | network-automation-and-topology-scripts.py:9-25 | conversion is not idempotent: for every rule, such a name is shortened again by a second conversion (`GigabitEthernetgabitEthernet0`, `GigabitEthernet0`, `Gi0`) |
| Cdp.MatchBlock | network-automation-and-topology-scripts.py:34 | what the staged matcher returns at a position is a match of the neighbour pattern there, inside the text |
| Cdp.MatchBlockLeast | network-automation-and-topology-scripts.py:34 | whenever the pattern matches at a position, the staged matcher finds a match there, and it is no longer than any other match in the order a backtracking engine tries the lazy groups |
| Cdp.NoLaterMatch | network-automation-and-topology-scripts.py:34 | once the pattern fails at one `Device ID: `, it fails at every later one |
| Cdp.FindAll | network-automation-and-topology-scripts.py:34 | every tuple found is the group triple of a match of the pattern in the text |
| Cdp.FindAllWithoutMarker | network-automation-and-topology-scripts.py:34 | a text without `Device ID: ` yields no tuples |
| Cdp.ScanStopsAtFailure | network-automation-and-topology-scripts.py:34 | if the pattern fails at the next `Device ID: `, nothing more is found: a block that does not match is not skipped |
| Cdp.ScanWith | network-automation-and-topology-scripts.py:34 | whatever the matcher, every tuple of a scan is the groups of a hit the matcher reports at or after the scan's start |
| Cdp.FindAllListing | network-automation-and-topology-scripts.py:34 | a listing of well-formed neighbour blocks, each preceded by text in which no `Device ID: ` starts (the dashed separator, the previous entry's holdtime, version and duplex lines) and followed by such a trailer, yields exactly the blocks' group triples, in block order |
| Cdp.FindAllSpread | network-automation-and-topology-scripts.py:34 | entries laid out at the start of a text are found one tuple per block, in order, before whatever the scan finds after them |
| Cdp.ScanEntries | network-automation-and-topology-scripts.py:34 | under any matcher that reads a run of entries one after another, the scan reports their tuples in order and carries on after the last |
| Cdp.FindAllUnterminated | network-automation-and-topology-scripts.py:34 | in such a listing whose last block lacks its final newline and ends the text, only the blocks before it are found |
| Hostname.TokenAtSound | network-automation-and-topology-scripts.py:35 | the greedy token found at a start is a match of `(\S+)\s+uptime` there |
| Hostname.TokenAtComplete | network-automation-and-topology-scripts.py:35 | every match at a start has the group the greedy search reports: the group at a given start is unique |
| Hostname.SearchFromLeftmost | network-automation-and-topology-scripts.py:35 | the search finds a start no later than any start at which the pattern matches |
| Hostname.FindHostname | network-automation-and-topology-scripts.py:35 | a hostname found is non-empty and free of whitespace |
| Hostname.FindHostnameLeftmost | network-automation-and-topology-scripts.py:35 | a hostname is found exactly when the pattern matches somewhere, and it is the group of the leftmost match |
| Hostname.FindHostnameOfUptimeLine | network-automation-and-topology-scripts.py:35 | output starting with a name, a space and `uptime` yields that name |
| Collector.NeighborRow | network-automation-and-topology-scripts.py:38-53 | a row keeps the device's hostname and the far end's device id and port verbatim; its local interface is shortened by the rule whose long form starts it, and is unchanged exactly when no rule matches |
| Collector.DeviceRows | network-automation-and-topology-scripts.py:33-53 | a session yields rows exactly when its hostname is found, one row per neighbour tuple |
| Collector.DeviceRowsFromMatches | network-automation-and-topology-scripts.py:34-53 | every row carries the found hostname and is read off one match of the neighbour pattern: far-end device id and port verbatim, local interface shortened |
| Collector.DeviceRowsOfListing | network-automation-and-topology-scripts.py:34-53 | for any version output in which the hostname `h` is found, a neighbour listing of well-formed blocks with separators between them gives one row per block, in block order, each naming `h` |
| Collector.Contribution | network-automation-and-topology-scripts.py:29-62 | a failed session contributes nothing; a device contributes rows only if the uptime pattern matches somewhere in its version output; once its hostname is found it contributes one row per neighbour tuple, each carrying that hostname |
| Collector.CollectAppend | network-automation-and-topology-scripts.py:153-165 | visiting two host lists one after the other appends their tables |
| Collector.CollectSkipsFailure | network-automation-and-topology-scripts.py:156-164 | a host that contributes nothing can be dropped from the list without changing the table |
| Collector.Collect | network-automation-and-topology-scripts.py:153-165 | a row is in the table exactly when one of the hosts contributed it |
| Collector.CollectAll | network-automation-and-topology-scripts.py:153-168 | the accumulation loop builds the per-host rows concatenated in host order |
| Collector.NeighborUpdates | network-automation-and-topology-scripts.py:43-47 | per neighbour, the read of the current description of the interface its row names as Interface-A, then the configuration of that interface with a description naming the row's Hostname-B and Interface-B |
| Collector.DeviceCommands | network-automation-and-topology-scripts.py:42-56 | nothing is sent outside update mode, nor when the uptime pattern matches nowhere; in update mode with the hostname found, two commands per neighbour tuple and then a final save |
| Collector.UpdatesAt | network-automation-and-topology-scripts.py:43-48 | the update commands follow the neighbours pair by pair: the read of the old description, then the two configuration lines |
| Collector.CommandsFollowRows | network-automation-and-topology-scripts.py:39-56 | in update mode a device is sent two commands per row and a final save; the interface configured for a row is its Interface-A, and its description names the row's Hostname-B and Interface-B |
| Distinct.DistinctFirst | network-automation-and-topology-scripts.py:80 | the result has no duplicates and holds exactly the values of the input |
| Distinct.DistinctFirstOrdered | network-automation-and-topology-scripts.py:80 | the survivors appear in the order of their first occurrences |
| Distinct.DistinctFirstIdempotent | network-automation-and-topology-scripts.py:80 | removing duplicates twice removes nothing more |
| Distinct.DistinctFirstAppend | network-automation-and-topology-scripts.py:79-80 | appending rows keeps the survivors of the first part in front; what follows comes from the appended part and is new |
| Distinct.DropDuplicates | network-automation-and-topology-scripts.py:80 | the one-pass seen-set loop computes the keep-first result |
| Table.RevRev | network-automation-and-topology-scripts.py:78 | the positional relabelling reverses a row; reversing twice gives the row back, and only equal rows have equal reverses |
| Table.StackMembers | network-automation-and-topology-scripts.py:77-79 | a row is in the stacked frame exactly when it or its reverse was collected |
| Table.Dedup | network-automation-and-topology-scripts.py:77-80 | the cleaned table has no repeated row, and a row is in it exactly when it or its reverse was collected |
| Table.DedupEnds | network-automation-and-topology-scripts.py:77-80 | the cleaned table mentions exactly the hostnames of the collected one |
| Table.DedupSymmetric | network-automation-and-topology-scripts.py:77-80 | the cleaned table holds a row exactly when it holds the row's reverse |
| Table.DedupOriginalsFirst | network-automation-and-topology-scripts.py:79-80 | the distinct collected rows come first, in first-occurrence order; every later row is the reverse of a collected row and was not collected itself |
| Table.DedupOfSymmetric | network-automation-and-topology-scripts.py:77-80 | a table without repeats that holds each row's reverse is left as it is |
| Table.DedupIdempotent | network-automation-and-topology-scripts.py:77-80 | cleaning the cleaned table changes nothing |
| Table.DedupSize | network-automation-and-topology-scripts.py:77-80 | the cleaned table is at least as long as the distinct collected rows and at most twice the collected table |
| Table.DedupBothEnds | network-automation-and-topology-scripts.py:76-80 | a link reported from both of its ends keeps both rows: the table is not halved |
| Table.DedupOneSided | network-automation-and-topology-scripts.py:76-80 | a link reported from one end only gains its reverse |
| Table.DedupSelfReverse | network-automation-and-topology-scripts.py:76-80 | a row equal to its own reverse appears once |
| Drawio.AddHost | network-automation-and-topology-scripts.py:96-108 | after a host is looked at it has an id; no other name gains one, and existing ids are kept |
| Drawio.EndpointsHas | network-automation-and-topology-scripts.py:90-94 | the builder looks at a hostname exactly when it is an end of some row |
| Drawio.AddHostLabels | network-automation-and-topology-scripts.py:96-108 | a host gets a node exactly when it was not seen before, so the nodes stay the first-seen order of the names looked at |
| Drawio.AddHostValid | network-automation-and-topology-scripts.py:96-108 | adding a host keeps ids equal to positions, each name pointing at its own node and each node the one its name points at |
| Drawio.AddEdgeEdges | network-automation-and-topology-scripts.py:110-114 | an edge is appended after the nodes it joins, with the row's label, from the node of Hostname-A to the node of Hostname-B |
| Drawio.AddRowStep | network-automation-and-topology-scripts.py:90-114 | one row preserves the correspondence between the rows seen and the nodes and edges built |
| Drawio.Build | network-automation-and-topology-scripts.py:85-115 | after any rows the ids are positions and each name maps to its own node, the nodes are the distinct hostnames in first-seen order, and the edges are the rows' edges in row order, each labelled with its interfaces and joining the nodes of its two hostnames, both emitted before it |
| Drawio.BuildNodes | network-automation-and-topology-scripts.py:96-108 | one node per distinct hostname in first-seen order, ids distinct, every node at (100, 100) and 80 by 80 |
| Drawio.BuildSelfLoop | network-automation-and-topology-scripts.py:96-114 | a row from a host to itself creates a single node, and its edge loops on it |
| Drawio.GenerateCells | network-automation-and-topology-scripts.py:85-115 | the loop with the id map and element list updated in place builds the same elements |
| Topology.DiagramNodes | network-automation-and-topology-scripts.py:77-117 | a hostname is drawn as a node exactly when it is an end of a collected row |
| Topology.DiagramEdgesBothWays | network-automation-and-topology-scripts.py:77-117 | every collected link is drawn in both directions, with the interfaces swapped on the way back |
| Topology.DiagramEdgeCount | network-automation-and-topology-scripts.py:77-117 | the number of edges is the cleaned table's length, between the number of distinct collected rows and twice the number of collected rows |
| Topology.Diagram | network-automation-and-topology-scripts.py:77-117 | no hostname is drawn twice, and there is one edge per row of the cleaned table |
| Topology.Run | network-automation-and-topology-scripts.py:153-173 | accumulation, duplicate drop over the stacked frames and the element loop together compute the modelled diagram |

## Left out

- SSH sessions are not modelled: `ConnectHandler`, `enable`, `send_command`, `send_config_set`, `save_config` and `disconnect` are foreign network I/O. The two read commands' outputs are inputs, and a failure to connect or enter enable mode is a `None` device.
- A failure of `send_config_set` or `save_config` part-way through the loop would leave that device's earlier rows in the table. Command failures are not modelled, so this case is absent.
- The missing `disconnect` on the error path (line 58) concerns session handling only.
- `is_ip_reachable` (lines 65-70) runs `ping` in a subprocess. Its result is only printed (lines 157-160) and does not change what is collected.
- The prompts, `getpass` and `.lower()` on the update answer (lines 137-151) are not modelled; update mode is a boolean parameter. All `print` logging is left out.
- The Excel write and read (lines 167-169, 74) are assumed to give the rows back unchanged. pandas' type coercion (a hostname such as `1` read back as a number) and its handling of empty cells are not modelled.
- The XML text is not modelled. This covers the rendering of each element into `mxCell` markup, the envelope of lines 118-130 and the file write of lines 131-133. Hostnames are not XML-escaped by the script, and well-formedness of the output is not claimed.
- `uuid4` randomness is replaced by positional identifiers, which are distinct by construction. Real identifiers are distinct only with overwhelming probability.
- The unused `processed_switches` set (lines 154, 165) is not modelled.
- Cdp.FindAllListing: the text before each block and after the last one must hold no `Device ID: `. A listing where it does is covered only by the general facts about `FindAll` (every tuple comes from a match; the scan stops at the first failing `Device ID: `).
- Collector.DeviceCommands: only the commands sent besides the two read commands are listed. The printing of old and new descriptions is left out.
