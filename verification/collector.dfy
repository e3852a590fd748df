/** The collection phase of network-automation-and-topology-scripts.py: for
    each host, in the order entered, the neighbour rows of
    `update_interface_descriptions` (lines 28-62) are appended to the shared
    table (lines 153-165), and in update mode each neighbour's local
    interface is given a description naming the far end.

    The device itself is not modelled: a session is the pair of texts the
    device returned for `show cdp neighbors detail` and `show version`, and
    a host whose session could not be opened is `None`. */
module Collector {
  import opened Wrappers
  import opened Text
  import Cdp
  import Hostname
  import InterfaceNames
  import opened Table
  import opened Sequences

  /** What a reachable device answered to the two read commands. */
  datatype Session = Session(cdpOutput: string, versionOutput: string)

  /** One entry of the host list: `None` when opening the session or
      entering enable mode raised, which the handler of lines 61-62 turns
      into a contribution of nothing. */
  type Device = Option<Session>

  /** What update mode asks of a device besides the two reads. */
  datatype Command =
    | Show(command: string)
    | Configure(lines: seq<string>)
    | Save

  /** The description of line 39 for a neighbour `deviceId` reached on its
      port `port`. */
  function Description(deviceId: string, port: string): string {
    "Connected to " + deviceId + " - " + port
  }

  /** The row appended at line 53 for neighbour `n` of the device named
      `hostname`: the far end's device id and port are kept verbatim, and the
      local interface is shortened by the first rule whose long form starts
      it, and kept exactly when no rule does. */
  function NeighborRow(hostname: string, n: Cdp.Neighbor): (r: Row)
    ensures r.hostnameA == hostname && r.hostnameB == n.deviceId && r.interfaceB == n.remoteInterface
    ensures r.interfaceA == n.localInterface <==> InterfaceNames.NoneMatch(InterfaceNames.Rules, n.localInterface)
    ensures forall i :: 0 <= i < |InterfaceNames.Rules| && StartsWith(n.localInterface, InterfaceNames.Rules[i].long) ==>
      r.interfaceA == InterfaceNames.Rules[i].short + n.localInterface[|InterfaceNames.Rules[i].long|..]
  {
    InterfaceNames.ConvertFixedIff(n.localInterface);
    Row(hostname, InterfaceNames.ConvertInterfaceName(n.localInterface), n.remoteInterface, n.deviceId)
  }

  /** The rows of one device whose hostname was found, one per neighbour in
      the order `findall` returned them. */
  function Rows(hostname: string, ns: seq<Cdp.Neighbor>): (rows: seq<Row>)
    ensures |rows| == |ns|
  {
    seq(|ns|, k requires 0 <= k < |ns| => NeighborRow(hostname, ns[k]))
  }

  /** Lines 33-53: the rows a session yields, or the error raised by the
      hostname search. The search runs before the loop, so an error means no
      row at all. */
  function DeviceRows(s: Session): (r: Result<seq<Row>, Hostname.HostnameError>)
    ensures r.Ok? <==> Hostname.FindHostname(s.versionOutput).Ok?
    ensures r.Ok? ==> |r.value| == |Cdp.FindAll(s.cdpOutput)|
  {
    match Hostname.FindHostname(s.versionOutput)
    case Err(e) => Err(e)
    case Ok(h) => Ok(Rows(h, Cdp.FindAll(s.cdpOutput)))
  }

  /** Every row of a device is read off one match of the neighbour pattern
      in its `show cdp neighbors detail` output and carries the hostname
      found in its `show version` output: the far end's device id and port
      verbatim, the local interface shortened. */
  lemma DeviceRowsFromMatches(s: Session, k: nat)
    requires DeviceRows(s).Ok? && k < |DeviceRows(s).value|
    ensures var row := DeviceRows(s).value[k];
      && row.hostnameA == Hostname.FindHostname(s.versionOutput).value
      && |row.hostnameA| > 0 && NoSpace(row.hostnameA)
      && exists i: nat, b :: Cdp.MatchesAt(s.cdpOutput, i, b) &&
           row.interfaceA == InterfaceNames.ConvertInterfaceName(b.localInterface) &&
           row.interfaceB == b.remoteInterface && row.hostnameB == b.deviceId
  {
    var ns := Cdp.FindAll(s.cdpOutput);
    assert Cdp.Extracted(s.cdpOutput, ns[k]);
    var i: nat, b :| Cdp.MatchesAt(s.cdpOutput, i, b) && ns[k] == Cdp.Groups(b);
  }

  /** A device whose neighbour output is a listing of well-formed blocks,
      each preceded by text in which no `Device ID: ` starts (the dashed
      separator, the previous entry's holdtime, version and duplex lines),
      followed by such a trailer, and whose version output names it `h`,
      yields one row per block, in block order. */
  lemma DeviceRowsOfListing(entries: seq<Cdp.Entry>, trailer: string, v: string, h: string)
    requires Cdp.CleanEntries(entries) && Cdp.Quiet(trailer)
    requires Hostname.FindHostname(v) == Ok(h)
    ensures DeviceRows(Session(Cdp.Spread(entries) + trailer, v)) == Ok(Rows(h, Cdp.Neighbors(entries)))
  {
    Cdp.FindAllListing(entries, trailer);
  }

  /** What one host adds to the table (lines 153-165 with the handler of
      lines 61-62): nothing for a failed session or a version output where
      the uptime pattern matches nowhere; otherwise one row per neighbour
      tuple, each carrying the hostname found. */
  function Contribution(d: Device): (rows: seq<Row>)
    ensures d.None? ==> rows == []
    ensures |rows| > 0 ==> d.Some? && exists i: nat, j: nat, e: nat :: Hostname.MatchesAt(d.value.versionOutput, i, j, e)
    ensures d.Some? && Hostname.FindHostname(d.value.versionOutput).Ok? ==>
      |rows| == |Cdp.FindAll(d.value.cdpOutput)| &&
      forall row :: row in rows ==> row.hostnameA == Hostname.FindHostname(d.value.versionOutput).value
  {
    match d
    case None => []
    case Some(s) =>
      Hostname.FindHostnameLeftmost(s.versionOutput);
      match DeviceRows(s)
      case Ok(rows) => rows
      case Err(_) => []
  }

  /** Each host's contribution, in host order. */
  function Contributions(devices: seq<Device>): (parts: seq<seq<Row>>)
    ensures |parts| == |devices|
  {
    Map(Contribution, devices)
  }

  /** Lines 153-165: the table after visiting the hosts in order. A row is
      in it exactly when one of the hosts contributed it. */
  function Collect(devices: seq<Device>): (r: seq<Row>)
    ensures forall row :: row in r <==> exists k :: 0 <= k < |devices| && row in Contribution(devices[k])
  {
    ContributionsHave(devices);
    Flatten(Contributions(devices))
  }

  lemma ContributionsHave(devices: seq<Device>)
    ensures forall row :: row in Flatten(Contributions(devices)) <==>
      exists k :: 0 <= k < |devices| && row in Contribution(devices[k])
  {
    var parts := Contributions(devices);
    FlattenHas(parts);
    forall row
      ensures row in Flatten(parts) <==> exists k :: 0 <= k < |devices| && row in Contribution(devices[k])
    {
      if row in Flatten(parts) {
        var k :| 0 <= k < |parts| && row in parts[k];
        assert parts[k] == Contribution(devices[k]);
      }
      if exists k :: 0 <= k < |devices| && row in Contribution(devices[k]) {
        var k :| 0 <= k < |devices| && row in Contribution(devices[k]);
        assert parts[k] == Contribution(devices[k]);
      }
    }
  }

  /** Visiting two lists of hosts one after the other appends their
      tables. */
  lemma CollectAppend(a: seq<Device>, b: seq<Device>)
    ensures Collect(a + b) == Collect(a) + Collect(b)
  {
    MapAppend(Contribution, a, b);
    FlattenAppend(Contributions(a), Contributions(b));
  }

  /** Visiting one more host appends its contribution. */
  lemma CollectSnoc(front: seq<Device>, d: Device)
    ensures Collect(front + [d]) == Collect(front) + Contribution(d)
  {
    CollectAppend(front, [d]);
    CollectOne(d);
  }

  /** A list of one host yields that host's contribution. */
  lemma CollectOne(d: Device)
    ensures Collect([d]) == Contribution(d)
  {
    assert Contributions([d]) == [Contribution(d)];
    FlattenOne(Contribution(d));
  }

  /** A host that contributes nothing can be dropped from the list: the loop
      carries on with the next host as if it had not been entered. */
  lemma CollectSkipsFailure(devices: seq<Device>, k: nat)
    requires k < |devices| && Contribution(devices[k]) == []
    ensures Collect(devices) == Collect(devices[..k] + devices[k + 1..])
  {
    var front, back := devices[..k], devices[k + 1..];
    assert devices == front + ([devices[k]] + back);
    CollectAppend(front, [devices[k]] + back);
    CollectAppend([devices[k]], back);
    CollectOne(devices[k]);
    CollectAppend(front, back);
  }

  /** The accumulation loop of lines 156-165 over a list that grows by
      `append`. */
  method CollectAll(devices: seq<Device>) returns (table: seq<Row>)
    ensures table == Collect(devices)
  {
    table := [];
    for i := 0 to |devices|
      invariant table == Collect(devices[..i])
    {
      CollectPrefix(devices, i);
      table := table + Contribution(devices[i]);
    }
    assert devices[..|devices|] == devices;
  }

  /** The table after one more host of the list. */
  lemma CollectPrefix(devices: seq<Device>, i: nat)
    requires i < |devices|
    ensures Collect(devices[..i + 1]) == Collect(devices[..i]) + Contribution(devices[i])
  {
    assert devices[..i + 1] == devices[..i] + [devices[i]];
    CollectSnoc(devices[..i], devices[i]);
  }

  /** The read command of line 43 for a (shortened) local interface. */
  function ShowDescription(localInterface: string): string {
    "show running-config interface " + localInterface + " | include description"
  }

  /** Lines 43-48 for one neighbour: read the current description of the
      interface its row names as Interface-A, then set on that interface a
      description naming the row's Hostname-B and Interface-B. */
  function NeighborUpdates(n: Cdp.Neighbor): (c: seq<Command>)
    ensures |c| == 2
    ensures forall h :: var row := NeighborRow(h, n);
      && c[0] == Show(ShowDescription(row.interfaceA))
      && c[1] == Configure(["interface " + row.interfaceA, "description " + Description(row.hostnameB, row.interfaceB)])
  {
    var local := InterfaceNames.ConvertInterfaceName(n.localInterface);
    [Show(ShowDescription(local)),
     Configure(["interface " + local, "description " + Description(n.deviceId, n.remoteInterface)])]
  }

  /** The update commands of the whole loop, neighbour by neighbour. */
  function Updates(ns: seq<Cdp.Neighbor>): seq<Command> {
    Flatten(Map(NeighborUpdates, ns))
  }

  /** Lines 42-56: the commands a session is sent besides the two reads.
      Nothing outside update mode; nothing either when the hostname search
      raised, since it runs before the loop. */
  function DeviceCommands(s: Session, update: bool): (c: seq<Command>)
    ensures !update ==> c == []
    ensures (forall i: nat, j: nat, e: nat :: !Hostname.MatchesAt(s.versionOutput, i, j, e)) ==> c == []
    ensures update && (exists i: nat, j: nat, e: nat :: Hostname.MatchesAt(s.versionOutput, i, j, e)) ==>
      |c| == 2 * |Cdp.FindAll(s.cdpOutput)| + 1 && c[|c| - 1] == Save
  {
    Hostname.FindHostnameLeftmost(s.versionOutput);
    if !update then []
    else match Hostname.FindHostname(s.versionOutput)
      case Err(_) => []
      case Ok(_) =>
        FlattenPairsLength(Map(NeighborUpdates, Cdp.FindAll(s.cdpOutput)));
        Updates(Cdp.FindAll(s.cdpOutput)) + [Save]
  }

  /** The update commands follow the neighbours pair by pair. */
  lemma UpdatesAt(ns: seq<Cdp.Neighbor>, k: nat)
    requires k < |ns|
    ensures |Updates(ns)| == 2 * |ns|
    ensures Updates(ns)[2 * k] == NeighborUpdates(ns[k])[0]
    ensures Updates(ns)[2 * k + 1] == NeighborUpdates(ns[k])[1]
  {
    FlattenPairs(Map(NeighborUpdates, ns), k);
  }

  /** In update mode a device with a hostname is sent two commands per row
      of its contribution and a final save: the interface configured for row
      `k` is the row's Interface-A, and its description names the row's
      Hostname-B and Interface-B. */
  lemma CommandsFollowRows(s: Session, k: nat)
    requires Hostname.FindHostname(s.versionOutput).Ok?
    requires k < |Contribution(Some(s))|
    ensures var c, row := DeviceCommands(s, true), Contribution(Some(s))[k];
      && |c| == 2 * |Contribution(Some(s))| + 1
      && c[|c| - 1] == Save
      && c[2 * k] == Show(ShowDescription(row.interfaceA))
      && c[2 * k + 1] == Configure(["interface " + row.interfaceA,
                                     "description " + Description(row.hostnameB, row.interfaceB)])
  {
    var h := Hostname.FindHostname(s.versionOutput).value;
    var ns := Cdp.FindAll(s.cdpOutput);
    var u := Updates(ns);
    assert Contribution(Some(s)) == Rows(h, ns);
    assert Contribution(Some(s))[k] == NeighborRow(h, ns[k]);
    assert DeviceCommands(s, true) == u + [Save];
    UpdatesAt(ns, k);
  }
}
