/** CDP neighbour extraction: the `re.findall` at line 34 of
    network-automation-and-topology-scripts.py, with the pattern

      Device ID: (.+?)\n.+?Interface: (.+?),\s+Port ID \(outgoing port\): (.+?)\n

    under DOTALL (so `.` also matches a newline). Each lazy group is found
    by a deterministic left-to-right stage that takes the first position at
    which the rest of the pattern can still continue; `MatchBlockLeast`
    shows that this is the match a backtracking engine reports. */
module Cdp {
  import opened Wrappers
  import opened Text

  const DeviceLabel: string := "Device ID: "
  const InterfaceLabel: string := "Interface: "
  const PortLabel: string := "Port ID (outgoing port): "

  /** The three groups of one match: the neighbour's device id, the local
      interface and the neighbour's outgoing port. */
  datatype Neighbor = Neighbor(deviceId: string, localInterface: string, remoteInterface: string)

  /** One whole match: the groups and the text consumed by the unnamed
      `.+?` after the device line and by `\s+`. */
  datatype Block = Block(deviceId: string, filler: string, localInterface: string,
                         gap: string, remoteInterface: string)

  function Groups(b: Block): Neighbor {
    Neighbor(b.deviceId, b.localInterface, b.remoteInterface)
  }

  /** The text a match consumes, up to but not including its final `\n`. */
  function BlockBody(b: Block): string {
    DeviceLabel + (b.deviceId + ("\n" + (b.filler + (InterfaceLabel + (b.localInterface +
      ("," + (b.gap + (PortLabel + b.remoteInterface))))))))
  }

  /** The text a match consumes. */
  function BlockText(b: Block): string {
    BlockBody(b) + "\n"
  }

  /** The side conditions of the pattern: every `+` repeats at least once,
      and the `\s+` part is whitespace. */
  predicate Shaped(b: Block) {
    && |b.deviceId| > 0
    && |b.filler| > 0
    && |b.localInterface| > 0
    && |b.gap| > 0 && AllSpace(b.gap)
    && |b.remoteInterface| > 0
  }

  /** The pattern matches `t` at `s` with the parts of `b`: the language of
      the regular expression, independent of any search strategy. */
  ghost predicate MatchesAt(t: string, s: nat, b: Block) {
    Shaped(b) && OccursAt(t, BlockText(b), s)
  }

  // Absolute positions of the parts of a match of `b` at `s`.
  function NewlineAt(s: nat, b: Block): nat { s + |DeviceLabel| + |b.deviceId| }
  function InterfaceAt(s: nat, b: Block): nat { NewlineAt(s, b) + 1 + |b.filler| }
  function CommaAt(s: nat, b: Block): nat { InterfaceAt(s, b) + |InterfaceLabel| + |b.localInterface| }
  function PortLabelAt(s: nat, b: Block): nat { CommaAt(s, b) + 1 + |b.gap| }
  function EndAt(s: nat, b: Block): nat { PortLabelAt(s, b) + |PortLabel| + |b.remoteInterface| }

  /** Every part of `b` except the final newline stands at its position. */
  ghost predicate Laid(t: string, s: nat, b: Block) {
    && OccursAt(t, DeviceLabel, s)
    && OccursAt(t, b.deviceId, s + |DeviceLabel|)
    && NewlineAt(s, b) < |t| && t[NewlineAt(s, b)] == '\n'
    && OccursAt(t, b.filler, NewlineAt(s, b) + 1)
    && OccursAt(t, InterfaceLabel, InterfaceAt(s, b))
    && OccursAt(t, b.localInterface, InterfaceAt(s, b) + |InterfaceLabel|)
    && CommaAt(s, b) < |t| && t[CommaAt(s, b)] == ','
    && OccursAt(t, b.gap, CommaAt(s, b) + 1)
    && OccursAt(t, PortLabel, PortLabelAt(s, b))
    && OccursAt(t, b.remoteInterface, PortLabelAt(s, b) + |PortLabel|)
  }

  lemma BodyLayout(t: string, s: nat, b: Block)
    ensures OccursAt(t, BlockBody(b), s) <==> Laid(t, s, b)
  {
    if OccursAt(t, BlockBody(b), s) {
      BodyLaid(t, s, b);
    }
    if Laid(t, s, b) {
      LaidBody(t, s, b);
    }
  }

  lemma BodyLaid(t: string, s: nat, b: Block)
    requires OccursAt(t, BlockBody(b), s)
    ensures Laid(t, s, b)
  {
    BodySplit(t, s, b);
    TailSplit(t, s, b);
  }

  lemma LaidBody(t: string, s: nat, b: Block)
    requires Laid(t, s, b)
    ensures OccursAt(t, BlockBody(b), s)
  {
    BodySplit(t, s, b);
    TailSplit(t, s, b);
  }

  /** The body at `s` as its head up to the filler and its tail from the
      interface label on. */
  lemma BodySplit(t: string, s: nat, b: Block)
    ensures var d, f, l, g, p := b.deviceId, b.filler, b.localInterface, b.gap, b.remoteInterface;
      var k := NewlineAt(s, b);
      OccursAt(t, BlockBody(b), s) <==>
        && OccursAt(t, DeviceLabel, s)
        && OccursAt(t, d, s + |DeviceLabel|)
        && k < |t| && t[k] == '\n'
        && OccursAt(t, f, k + 1)
        && OccursAt(t, InterfaceLabel + (l + ("," + (g + (PortLabel + p)))), InterfaceAt(s, b))
  {
    var d, f, l, g, p := b.deviceId, b.filler, b.localInterface, b.gap, b.remoteInterface;
    var k := NewlineAt(s, b);
    OccursConcat(t, DeviceLabel, d + ("\n" + (f + (InterfaceLabel + (l + ("," + (g + (PortLabel + p))))))), s);
    OccursConcat(t, d, "\n" + (f + (InterfaceLabel + (l + ("," + (g + (PortLabel + p)))))), s + |DeviceLabel|);
    OccursConcat(t, "\n", f + (InterfaceLabel + (l + ("," + (g + (PortLabel + p))))), k);
    OccursConcat(t, f, InterfaceLabel + (l + ("," + (g + (PortLabel + p)))), k + 1);
    OccursChar(t, '\n', k);
  }

  /** The tail of the body at the positions of a block at `s`. */
  lemma TailSplit(t: string, s: nat, b: Block)
    ensures OccursAt(t, InterfaceLabel + (b.localInterface + ("," + (b.gap + (PortLabel + b.remoteInterface)))), InterfaceAt(s, b)) <==>
        && OccursAt(t, InterfaceLabel, InterfaceAt(s, b))
        && OccursAt(t, b.localInterface, InterfaceAt(s, b) + |InterfaceLabel|)
        && CommaAt(s, b) < |t| && t[CommaAt(s, b)] == ','
        && OccursAt(t, b.gap, CommaAt(s, b) + 1)
        && OccursAt(t, PortLabel, PortLabelAt(s, b))
        && OccursAt(t, b.remoteInterface, PortLabelAt(s, b) + |PortLabel|)
  {
    TailLayout(t, InterfaceAt(s, b), b);
  }

  /** The part of a block from its interface label on, laid out at `m`. */
  lemma TailLayout(t: string, m: nat, b: Block)
    ensures var l, g, p := b.localInterface, b.gap, b.remoteInterface;
      var c := m + |InterfaceLabel| + |l|;
      var q := c + 1 + |g|;
      OccursAt(t, InterfaceLabel + (l + ("," + (g + (PortLabel + p)))), m) <==>
        && OccursAt(t, InterfaceLabel, m)
        && OccursAt(t, l, m + |InterfaceLabel|)
        && c < |t| && t[c] == ','
        && OccursAt(t, g, c + 1)
        && OccursAt(t, PortLabel, q)
        && OccursAt(t, p, q + |PortLabel|)
  {
    var l, g, p := b.localInterface, b.gap, b.remoteInterface;
    var c := m + |InterfaceLabel| + |l|;
    var q := c + 1 + |g|;
    OccursConcat(t, InterfaceLabel, l + ("," + (g + (PortLabel + p))), m);
    OccursConcat(t, l, "," + (g + (PortLabel + p)), m + |InterfaceLabel|);
    OccursConcat(t, ",", g + (PortLabel + p), c);
    OccursConcat(t, g, PortLabel + p, c + 1);
    OccursConcat(t, PortLabel, p, q);
    OccursChar(t, ',', c);
  }

  /** Where a match of `b` at `s` puts its parts, and conversely. */
  lemma TextLayout(t: string, s: nat, b: Block)
    ensures OccursAt(t, BlockText(b), s) <==> Laid(t, s, b) && EndAt(s, b) < |t| && t[EndAt(s, b)] == '\n'
    ensures |BlockText(b)| == EndAt(s, b) + 1 - s
  {
    BodyLayout(t, s, b);
    OccursConcat(t, BlockBody(b), "\n", s);
    OccursChar(t, '\n', EndAt(s, b));
  }

  /** A comma at `c` followed by a maximal whitespace run of length at least
      one and then the port label: the part `,\s+Port ID \(outgoing port\): `.
      The result is where the port label starts. */
  function PortLabelAfter(t: string, c: nat): (r: Option<nat>)
    ensures r.Some? ==> c < |t| && t[c] == ',' && c + 1 < r.value && OccursAt(t, PortLabel, r.value)
  {
    if c < |t| && t[c] == ',' then
      var g := RunEnd(t, c + 1, true);
      if g > c + 1 && OccursAt(t, PortLabel, g) then Some(g) else None
    else None
  }

  /** The separator starting at a comma is whitespace up to the port label. */
  lemma PortLabelAfterGap(t: string, c: nat)
    requires PortLabelAfter(t, c).Some?
    ensures forall i :: c + 1 <= i < PortLabelAfter(t, c).value ==> IsSpace(t[i])
  {
    RunEndMaximal(t, c + 1, true);
  }

  /** Conversely, a comma, a whitespace run and the port label make a
      separator, whose port label is the one after the run. */
  lemma PortLabelAfterIs(t: string, c: nat, g: nat)
    requires c < |t| && t[c] == ',' && c + 1 < g
    requires OccursAt(t, PortLabel, g)
    requires forall i :: c + 1 <= i < g ==> IsSpace(t[i])
    ensures PortLabelAfter(t, c) == Some(g)
  {
    OccursIndex(t, PortLabel, g, g);
    RunEndAt(t, c + 1, g, true);
  }

  /** The first comma at or after `from` that starts a port-label
      separator; `FindPortLabelFirst` states that it is the first. */
  function FindPortLabel(t: string, from: nat): (r: Option<nat>)
    ensures r.Some? ==> from <= r.value && PortLabelAfter(t, r.value).Some?
    decreases |t| - from
  {
    if from >= |t| then None
    else if PortLabelAfter(t, from).Some? then Some(from)
    else FindPortLabel(t, from + 1)
  }

  /** No separator comma lies before the one found, and none at all when
      nothing is found. */
  lemma {:induction false} FindPortLabelFirst(t: string, from: nat)
    ensures FindPortLabel(t, from).Some? ==>
              forall c :: from <= c < FindPortLabel(t, from).value ==> PortLabelAfter(t, c).None?
    ensures FindPortLabel(t, from).None? ==> forall c :: from <= c ==> PortLabelAfter(t, c).None?
    decreases |t| - from
  {
    if from < |t| && PortLabelAfter(t, from).None? {
      FindPortLabelFirst(t, from + 1);
    }
  }

  /** A separator comma with none before it is the one found. */
  lemma {:induction false} FindPortLabelIs(t: string, from: nat, c: nat)
    requires from <= c && PortLabelAfter(t, c).Some?
    requires forall x :: from <= x < c ==> PortLabelAfter(t, x).None?
    ensures FindPortLabel(t, from) == Some(c)
    decreases c - from
  {
    if from < c {
      FindPortLabelIs(t, from + 1, c);
    }
  }

  /** A separator comma bounds the first one found. */
  lemma FindPortLabelWithin(t: string, from: nat, c: nat)
    requires from <= c && PortLabelAfter(t, c).Some?
    ensures FindPortLabel(t, from).Some? && FindPortLabel(t, from).value <= c
  {
    FindPortLabelFirst(t, from);
  }

  /** An occurrence of the port label holds no comma. */
  lemma PortLabelHasNoComma(t: string, g: nat)
    requires OccursAt(t, PortLabel, g)
    ensures forall j :: g <= j < g + |PortLabel| ==> t[j] != ','
  {
    forall j | g <= j < g + |PortLabel|
      ensures t[j] != ','
    {
      OccursIndex(t, PortLabel, g, j);
    }
  }

  /** The separator `,\s+Port ID (outgoing port): ` starting at a comma never
      reaches past another comma. */
  lemma SeparatorHasNoComma(t: string, c: nat, c0: nat)
    requires c < c0 < |t| && t[c0] == ','
    requires PortLabelAfter(t, c).Some?
    ensures PortLabelAfter(t, c).value + |PortLabel| <= c0
  {
    PortLabelAfterGap(t, c);
    PortLabelHasNoComma(t, PortLabelAfter(t, c).value);
  }

  /** Where the parts of a match at `s` end: the newline after the device
      id, the interface label, the separator comma, the port label and the
      final newline. */
  datatype Cut = Cut(k: nat, m: nat, c: nat, g: nat, n: nat)

  /** The pattern at `s` with its parts ending at positions `k`, `m`, `c`,
      `g` and `n`. */
  predicate AnchoredAt(t: string, s: nat, k: nat, m: nat, c: nat, g: nat, n: nat) {
    && OccursAt(t, DeviceLabel, s)
    && s + |DeviceLabel| < k < |t| && t[k] == '\n'
    && k + 1 < m && OccursAt(t, InterfaceLabel, m)
    && m + |InterfaceLabel| < c && PortLabelAfter(t, c) == Some(g)
    && g + |PortLabel| < n < |t| && t[n] == '\n'
  }

  /** The pattern at `s` with its parts ending at the positions of `x`. */
  predicate Anchored(t: string, s: nat, x: Cut) {
    AnchoredAt(t, s, x.k, x.m, x.c, x.g, x.n)
  }

  /** The staged search for a match at `s`: each lazy group ends at the
      first place where what follows it in the pattern occurs. */
  function Cuts(t: string, s: nat): Option<Cut> {
    if !OccursAt(t, DeviceLabel, s) then None
    else AfterDevice(t, CharIndex(t, '\n', s + |DeviceLabel| + 1))
  }

  function AfterDevice(t: string, k: Option<nat>): Option<Cut> {
    if k.None? then None
    else AfterFiller(t, k.value, IndexOf(t, InterfaceLabel, k.value + 2))
  }

  function AfterFiller(t: string, k: nat, m: Option<nat>): Option<Cut> {
    if m.None? then None
    else AfterLocal(t, k, m.value, FindPortLabel(t, m.value + |InterfaceLabel| + 1))
  }

  function AfterLocal(t: string, k: nat, m: nat, c: Option<nat>): Option<Cut> {
    if c.None? then None
    else
      var g := PortLabelAfter(t, c.value);
      if g.None? then None
      else AfterPort(k, m, c.value, g.value, CharIndex(t, '\n', g.value + |PortLabel| + 1))
  }

  function AfterPort(k: nat, m: nat, c: nat, g: nat, n: Option<nat>): Option<Cut> {
    if n.None? then None else Some(Cut(k, m, c, g, n.value))
  }

  /** Each stage of `x` ends where its search first succeeds. */
  predicate StagedAt(t: string, s: nat, k: nat, m: nat, c: nat, g: nat, n: nat) {
    && OccursAt(t, DeviceLabel, s)
    && CharIndex(t, '\n', s + |DeviceLabel| + 1) == Some(k)
    && IndexOf(t, InterfaceLabel, k + 2) == Some(m)
    && FindPortLabel(t, m + |InterfaceLabel| + 1) == Some(c)
    && PortLabelAfter(t, c) == Some(g)
    && CharIndex(t, '\n', g + |PortLabel| + 1) == Some(n)
  }

  /** The stages of `StagedAt` before the search for the final newline. */
  predicate StagedToPort(t: string, s: nat, k: nat, m: nat, c: nat, g: nat) {
    && OccursAt(t, DeviceLabel, s)
    && CharIndex(t, '\n', s + |DeviceLabel| + 1) == Some(k)
    && IndexOf(t, InterfaceLabel, k + 2) == Some(m)
    && FindPortLabel(t, m + |InterfaceLabel| + 1) == Some(c)
    && PortLabelAfter(t, c) == Some(g)
  }

  /** `StagedAt` for the positions of `x`. */
  predicate Staged(t: string, s: nat, x: Cut) {
    StagedAt(t, s, x.k, x.m, x.c, x.g, x.n)
  }

  /** Staged positions are positions of the pattern. */
  lemma StagedAnchored(t: string, s: nat, x: Cut)
    requires Staged(t, s, x)
    ensures Anchored(t, s, x)
  {
  }

  // The stage chain of `Cuts`, one link per lemma so that each proof sees
  // only the facts of its own stage.
  lemma PortStage(t: string, k: nat, m: nat, c: nat, g: nat, n: Option<nat>)
    requires PortLabelAfter(t, c) == Some(g)
    requires CharIndex(t, '\n', g + |PortLabel| + 1) == n
    ensures AfterLocal(t, k, m, Some(c)) == AfterPort(k, m, c, g, n)
  {
  }

  lemma LocalStage(t: string, k: nat, m: nat, c: nat, x: Option<Cut>)
    requires FindPortLabel(t, m + |InterfaceLabel| + 1) == Some(c)
    requires AfterLocal(t, k, m, Some(c)) == x
    ensures AfterFiller(t, k, Some(m)) == x
  {
  }

  lemma FillerStage(t: string, k: nat, m: nat, x: Option<Cut>)
    requires IndexOf(t, InterfaceLabel, k + 2) == Some(m)
    requires AfterFiller(t, k, Some(m)) == x
    ensures AfterDevice(t, Some(k)) == x
  {
  }

  lemma DeviceStage(t: string, s: nat, k: nat, x: Option<Cut>)
    requires OccursAt(t, DeviceLabel, s)
    requires CharIndex(t, '\n', s + |DeviceLabel| + 1) == Some(k)
    requires AfterDevice(t, Some(k)) == x
    ensures Cuts(t, s) == x
  {
  }

  /** Stages that succeed up to the port label leave the outcome to the
      search for the final newline. */
  lemma CutsThroughPort(t: string, s: nat, k: nat, m: nat, c: nat, g: nat)
    requires OccursAt(t, DeviceLabel, s)
    requires CharIndex(t, '\n', s + |DeviceLabel| + 1) == Some(k)
    requires IndexOf(t, InterfaceLabel, k + 2) == Some(m)
    requires FindPortLabel(t, m + |InterfaceLabel| + 1) == Some(c)
    requires PortLabelAfter(t, c) == Some(g)
    ensures Cuts(t, s) == AfterPort(k, m, c, g, CharIndex(t, '\n', g + |PortLabel| + 1))
  {
    var n := CharIndex(t, '\n', g + |PortLabel| + 1);
    var x := AfterPort(k, m, c, g, n);
    PortStage(t, k, m, c, g, n);
    LocalStage(t, k, m, c, x);
    FillerStage(t, k, m, x);
    DeviceStage(t, s, k, x);
  }

  /** A successful search went through every stage. */
  lemma StagedOfCuts(t: string, s: nat)
    requires Cuts(t, s).Some?
    ensures Staged(t, s, Cuts(t, s).value)
  {
    var k := CharIndex(t, '\n', s + |DeviceLabel| + 1).value;
    var m := IndexOf(t, InterfaceLabel, k + 2).value;
    var c := FindPortLabel(t, m + |InterfaceLabel| + 1).value;
    var g := PortLabelAfter(t, c).value;
    var n := CharIndex(t, '\n', g + |PortLabel| + 1).value;
    assert StagedAt(t, s, k, m, c, g, n);
    CutsOfStagedAt(t, s, k, m, c, g, n);
  }

  /** Staged positions are what the search returns. */
  lemma CutsOfStaged(t: string, s: nat, x: Cut)
    requires Staged(t, s, x)
    ensures Cuts(t, s) == Some(x)
  {
    var k, m, c, g, n := x.k, x.m, x.c, x.g, x.n;
    assert StagedAt(t, s, k, m, c, g, n);
    CutsOfStagedAt(t, s, k, m, c, g, n);
    assert x == Cut(k, m, c, g, n);
  }

  lemma CutsOfStagedAt(t: string, s: nat, k: nat, m: nat, c: nat, g: nat, n: nat)
    requires StagedAt(t, s, k, m, c, g, n)
    ensures Cuts(t, s) == Some(Cut(k, m, c, g, n))
  {
    CutsThroughPort(t, s, k, m, c, g);
  }

  /** The parts of the text between the positions of `x`. */
  function Cutting(t: string, s: nat, x: Cut): Block
    requires s + |DeviceLabel| <= x.k < x.m && x.m + |InterfaceLabel| <= x.c < x.g
    requires x.g + |PortLabel| <= x.n <= |t|
  {
    Block(t[s + |DeviceLabel|..x.k], t[x.k + 1..x.m], t[x.m + |InterfaceLabel|..x.c],
          t[x.c + 1..x.g], t[x.g + |PortLabel|..x.n])
  }

  /** The parts cut at `x` sit at the positions of `x`. */
  lemma CuttingAt(t: string, s: nat, x: Cut)
    requires s + |DeviceLabel| <= x.k < x.m && x.m + |InterfaceLabel| <= x.c < x.g
    requires x.g + |PortLabel| <= x.n <= |t|
    ensures var b := Cutting(t, s, x);
      && NewlineAt(s, b) == x.k && InterfaceAt(s, b) == x.m && CommaAt(s, b) == x.c
      && PortLabelAt(s, b) == x.g && EndAt(s, b) == x.n
  {
  }

  /** The match of the pattern at `s`, if any: the parts between the
      positions the staged search finds. What it returns is a match of the
      pattern at `s`; `MatchBlockLeast` states that it finds one whenever
      there is one, and which. */
  function MatchBlock(t: string, s: nat): (r: Option<Block>)
    ensures r.Some? ==> MatchesAt(t, s, r.value)
  {
    match Cuts(t, s)
    case None => None
    case Some(x) =>
      StagedOfCuts(t, s);
      StagedAnchored(t, s, x);
      Assemble(t, s, x);
      Some(Cutting(t, s, x))
  }

  /** Staged positions give the match. */
  lemma MatchBlockOfStaged(t: string, s: nat, x: Cut)
    requires Staged(t, s, x)
    ensures Anchored(t, s, x)
    ensures MatchBlock(t, s) == Some(Cutting(t, s, x))
  {
    CutsOfStaged(t, s, x);
  }

  /** The gap cut at anchored positions is whitespace. */
  lemma CuttingShaped(t: string, s: nat, x: Cut)
    requires Anchored(t, s, x)
    ensures Shaped(Cutting(t, s, x))
  {
    var gap := Cutting(t, s, x).gap;
    PortLabelAfterGap(t, x.c);
    forall i | 0 <= i < |gap|
      ensures IsSpace(gap[i])
    {
      assert gap[i] == t[x.c + 1 + i];
    }
  }

  /** The parts cut at anchored positions stand at their positions. */
  lemma CuttingLaid(t: string, s: nat, x: Cut)
    requires Anchored(t, s, x)
    ensures Laid(t, s, Cutting(t, s, x))
  {
    CuttingAt(t, s, x);
  }

  /** The parts cut at anchored positions form a match. */
  lemma Assemble(t: string, s: nat, x: Cut)
    requires Anchored(t, s, x)
    ensures MatchesAt(t, s, Cutting(t, s, x))
  {
    CuttingShaped(t, s, x);
    CuttingLaid(t, s, x);
    CuttingAt(t, s, x);
    TextLayout(t, s, Cutting(t, s, x));
  }

  /** The positions of the parts of a match. */
  function CutOf(s: nat, b: Block): Cut {
    Cut(NewlineAt(s, b), InterfaceAt(s, b), CommaAt(s, b), PortLabelAt(s, b), EndAt(s, b))
  }

  /** The separator of a match is the maximal whitespace run after its comma. */
  lemma GapOfMatch(t: string, s: nat, b: Block)
    requires Shaped(b) && Laid(t, s, b)
    ensures PortLabelAfter(t, CommaAt(s, b)) == Some(PortLabelAt(s, b))
  {
    var c0, g0 := CommaAt(s, b), PortLabelAt(s, b);
    forall i | c0 + 1 <= i < g0
      ensures IsSpace(t[i])
    {
      OccursIndex(t, b.gap, c0 + 1, i);
    }
    PortLabelAfterIs(t, c0, g0);
  }

  /** A match stands at anchored positions, and is the text cut there. */
  lemma AnchoredOfMatch(t: string, s: nat, b: Block)
    requires MatchesAt(t, s, b)
    ensures Anchored(t, s, CutOf(s, b))
    ensures Cutting(t, s, CutOf(s, b)) == b
  {
    TextLayout(t, s, b);
    GapOfMatch(t, s, b);
  }

  // From an anchored position onward each stage search succeeds no later,
  // one lemma per stage.
  lemma DeviceWithin(t: string, s: nat, yk: nat) returns (k: nat)
    requires s + |DeviceLabel| < yk < |t| && t[yk] == '\n'
    ensures CharIndex(t, '\n', s + |DeviceLabel| + 1) == Some(k) && k <= yk
  {
    CharIndexWithin(t, '\n', s + |DeviceLabel| + 1, yk);
    k := CharIndex(t, '\n', s + |DeviceLabel| + 1).value;
  }

  lemma FillerWithin(t: string, k: nat, ym: nat) returns (m: nat)
    requires k + 2 <= ym && OccursAt(t, InterfaceLabel, ym)
    ensures IndexOf(t, InterfaceLabel, k + 2) == Some(m) && m <= ym
  {
    IndexOfWithin(t, InterfaceLabel, k + 2, ym);
    m := IndexOf(t, InterfaceLabel, k + 2).value;
  }

  lemma LocalWithin(t: string, m: nat, yc: nat) returns (c: nat)
    requires m + |InterfaceLabel| + 1 <= yc && PortLabelAfter(t, yc).Some?
    ensures FindPortLabel(t, m + |InterfaceLabel| + 1) == Some(c) && c <= yc
  {
    FindPortLabelWithin(t, m + |InterfaceLabel| + 1, yc);
    c := FindPortLabel(t, m + |InterfaceLabel| + 1).value;
  }

  lemma PortWithin(t: string, c: nat, yc: nat, yg: nat, yn: nat) returns (g: nat, n: nat)
    requires c <= yc && PortLabelAfter(t, c).Some? && PortLabelAfter(t, yc) == Some(yg)
    requires yg + |PortLabel| < yn < |t| && t[yn] == '\n'
    ensures PortLabelAfter(t, c) == Some(g)
    ensures CharIndex(t, '\n', g + |PortLabel| + 1) == Some(n) && (c == yc ==> n <= yn)
  {
    g := PortLabelAfter(t, c).value;
    if c < yc {
      SeparatorHasNoComma(t, c, yc);
    }
    CharIndexWithin(t, '\n', g + |PortLabel| + 1, yn);
    n := CharIndex(t, '\n', g + |PortLabel| + 1).value;
  }

  /** From anchored positions, every stage of the search succeeds and ends
      no later than the anchored one; the final newline is no later either
      when the separator comma is the same. */
  lemma FirstStaged(t: string, s: nat, y: Cut) returns (x: Cut)
    requires Anchored(t, s, y)
    ensures Staged(t, s, x)
    ensures x.k <= y.k && x.m <= y.m && x.c <= y.c && (x.c == y.c ==> x.n <= y.n)
  {
    var k := DeviceWithin(t, s, y.k);
    var m := FillerWithin(t, k, y.m);
    var c := LocalWithin(t, m, y.c);
    var g, n := PortWithin(t, c, y.c, y.g, y.n);
    assert StagedAt(t, s, k, m, c, g, n);
    x := Cut(k, m, c, g, n);
  }

  /** `a` is no longer than `b` in the order a backtracking engine tries
      the lazy groups: device id first, then filler, local interface and
      remote interface. */
  predicate NoLonger(a: Block, b: Block) {
    if |a.deviceId| != |b.deviceId| then |a.deviceId| < |b.deviceId|
    else if |a.filler| != |b.filler| then |a.filler| < |b.filler|
    else if |a.localInterface| != |b.localInterface| then |a.localInterface| < |b.localInterface|
    else |a.remoteInterface| <= |b.remoteInterface|
  }

  /** Completeness and priority: whenever the pattern matches at `s` at all,
      `MatchBlock` finds a match, and it is the first one in the engine's
      order, i.e. no longer than any other match at `s`. */
  lemma MatchBlockLeast(t: string, s: nat, b: Block)
    requires MatchesAt(t, s, b)
    ensures MatchBlock(t, s).Some?
    ensures NoLonger(MatchBlock(t, s).value, b)
  {
    AnchoredOfMatch(t, s, b);
    var y := CutOf(s, b);
    var x := FirstStaged(t, s, y);
    MatchBlockOfStaged(t, s, x);
    CuttingAt(t, s, x);
    CuttingAt(t, s, y);
  }

  /** Once the pattern fails at one `Device ID: ` it fails at every later
      one: the device-id group, which may span lines, could stretch back
      over the difference. */
  lemma NoLaterMatch(t: string, i: nat, j: nat)
    requires i < j && OccursAt(t, DeviceLabel, i) && MatchBlock(t, i).None?
    ensures MatchBlock(t, j).None?
  {
    if Cuts(t, j).Some? {
      StagedOfCuts(t, j);
      var y := Cuts(t, j).value;
      StagedAnchored(t, j, y);
      var x := FirstStaged(t, i, y);
      MatchBlockOfStaged(t, i, x);
    }
  }

  /** What a matcher reports at a position: the groups of the match found
      there and the position right after the text it consumed. */
  datatype Hit = Hit(groups: Neighbor, next: nat)

  /** A matcher: the outcome of trying the pattern anchored at each
      position of a text. */
  type Matcher = nat -> Option<Hit>

  /** Every match `m` reports consumes at least one character and ends
      within `t`, so the scan can resume after it. */
  ghost predicate Fits(t: string, m: Matcher) {
    forall i: nat :: m(i).Some? ==> i < m(i).value.next <= |t|
  }

  /** The matcher reports, at or after `pos`, a match with groups `n`. */
  ghost predicate Reported(m: Matcher, pos: nat, n: Neighbor) {
    exists i: nat :: pos <= i && m(i).Some? && m(i).value.groups == n
  }

  /** The loop of `re.findall`: from `pos`, try the pattern at the next
      `Device ID: `; on a match emit its groups and resume after it,
      otherwise resume one character later. Positions without the literal
      `Device ID: ` cannot start a match, so they are skipped at once.
      Every tuple emitted is the groups of a match the matcher reports at
      or after `pos`. */
  function ScanWith(t: string, m: Matcher, pos: nat): (r: seq<Neighbor>)
    requires Fits(t, m)
    ensures forall n :: 0 <= n < |r| ==> Reported(m, pos, r[n])
    decreases |t| - pos
  {
    match IndexOf(t, DeviceLabel, pos)
    case None => []
    case Some(i) =>
      match m(i)
      case None => ScanWith(t, m, i + 1)
      case Some(h) => [h.groups] + ScanWith(t, m, h.next)
  }

  /** The matcher of the neighbour regular expression on `t`. */
  function Pattern(t: string): Matcher {
    (i: nat) => HitOf(i, MatchBlock(t, i))
  }

  /** The report for the outcome of the pattern at `s`. */
  function HitOf(s: nat, r: Option<Block>): Option<Hit> {
    match r
    case None => None
    case Some(b) => Some(Hit(Groups(b), Next(s, b)))
  }

  lemma PatternFits(t: string)
    ensures Fits(t, Pattern(t))
  {
  }

  /** The scan of `t` by the neighbour pattern from `pos`. */
  function ScanFrom(t: string, pos: nat): seq<Neighbor> {
    PatternFits(t);
    ScanWith(t, Pattern(t), pos)
  }

  /** `n` is the group triple of some match of the pattern in `t`. */
  ghost predicate Extracted(t: string, n: Neighbor) {
    exists i: nat, b :: MatchesAt(t, i, b) && n == Groups(b)
  }

  /** What the neighbour pattern reports is the groups of a match. */
  lemma PatternReported(t: string, pos: nat, n: Neighbor)
    requires Reported(Pattern(t), pos, n)
    ensures Extracted(t, n)
  {
    var i: nat :| pos <= i && Pattern(t)(i).Some? && Pattern(t)(i).value.groups == n;
    assert MatchesAt(t, i, MatchBlock(t, i).value);
  }

  /** The neighbour tuples `re.findall` returns for one device's output.
      Every tuple is the group triple of a match of the pattern in the
      text, so nothing is ever extracted from text the pattern does not
      match. */
  function FindAll(t: string): (r: seq<Neighbor>)
    ensures forall n :: 0 <= n < |r| ==> Extracted(t, r[n])
  {
    var found := ScanFrom(t, 0);
    PatternSound(t, found);
    found
  }

  lemma PatternSound(t: string, r: seq<Neighbor>)
    requires forall n :: 0 <= n < |r| ==> Reported(Pattern(t), 0, r[n])
    ensures forall n :: 0 <= n < |r| ==> Extracted(t, r[n])
  {
    forall n | 0 <= n < |r|
      ensures Extracted(t, r[n])
    {
      PatternReported(t, 0, r[n]);
    }
  }

  /** The scan from equal positions is equal. Stated as a lemma so that the
      solver does not have to find the equality of the two positions by
      arithmetic. */
  lemma ScanSame(t: string, m: Matcher, a: nat, b: nat)
    requires Fits(t, m) && a == b
    ensures ScanWith(t, m, a) == ScanWith(t, m, b)
  {
  }

  // One step of the scan each.
  lemma ScanHit(t: string, m: Matcher, pos: nat, i: nat, h: Hit)
    requires Fits(t, m)
    requires IndexOf(t, DeviceLabel, pos) == Some(i) && m(i) == Some(h)
    ensures pos <= i < h.next <= |t|
    ensures ScanWith(t, m, pos) == [h.groups] + ScanWith(t, m, h.next)
  {
  }

  lemma ScanMiss(t: string, m: Matcher, pos: nat, i: nat)
    requires Fits(t, m)
    requires IndexOf(t, DeviceLabel, pos) == Some(i) && m(i).None?
    ensures pos <= i < |t|
    ensures ScanWith(t, m, pos) == ScanWith(t, m, i + 1)
  {
  }

  /** No match at any `Device ID: ` from `pos` on: nothing is found. */
  lemma {:induction false} ScanNothing(t: string, m: Matcher, pos: nat)
    requires Fits(t, m)
    requires forall j: nat :: pos <= j && OccursAt(t, DeviceLabel, j) ==> m(j).None?
    ensures ScanWith(t, m, pos) == []
    decreases |t| - pos
  {
    match IndexOf(t, DeviceLabel, pos)
    case None =>
    case Some(i) =>
      ScanMiss(t, m, pos, i);
      ScanNothing(t, m, i + 1);
  }

  /** Text without any `Device ID: ` yields no rows. */
  lemma FindAllWithoutMarker(t: string)
    requires forall j :: !OccursAt(t, DeviceLabel, j)
    ensures FindAll(t) == []
  {
    IndexOfFirst(t, DeviceLabel, 0);
  }

  /** If the pattern fails at the first `Device ID: ` from `pos`, the scan
      ends there: a block that does not match is not skipped. */
  lemma ScanStopsAtFailure(t: string, pos: nat, i: nat)
    requires IndexOf(t, DeviceLabel, pos) == Some(i) && MatchBlock(t, i).None?
    ensures ScanFrom(t, pos) == []
  {
    PatternFits(t);
    forall j: nat | i + 1 <= j && OccursAt(t, DeviceLabel, j)
      ensures Pattern(t)(j).None?
    {
      NoLaterMatch(t, i, j);
    }
    ScanMiss(t, Pattern(t), pos, i);
    ScanNothing(t, Pattern(t), i + 1);
  }

  /** A well-formed neighbour block: device id and remote port on one line
      each, no `Interface: ` inside the filler past its first character,
      no comma in the local interface name. */
  predicate WellFormed(b: Block) {
    && Shaped(b)
    && '\n' !in b.deviceId
    && (forall p :: 1 <= p < |b.filler| ==> !OccursAt(b.filler + InterfaceLabel, InterfaceLabel, p))
    && ',' !in b.localInterface
    && '\n' !in b.remoteInterface
  }

  /** A character absent from `w` is absent from where `w` occurs. */
  lemma CharAbsent(t: string, w: string, x: nat, c: char)
    requires OccursAt(t, w, x) && c !in w
    ensures forall j :: x <= j < x + |w| ==> t[j] != c
  {
    forall j | x <= j < x + |w|
      ensures t[j] != c
    {
      OccursIndex(t, w, x, j);
    }
  }

  // The stages of the search on a well-formed block, one lemma each.
  lemma WellFormedDevice(t: string, s: nat, b: Block)
    requires WellFormed(b) && Laid(t, s, b)
    ensures CharIndex(t, '\n', s + |DeviceLabel| + 1) == Some(NewlineAt(s, b))
  {
    CharAbsent(t, b.deviceId, s + |DeviceLabel|, '\n');
    CharIndexIs(t, '\n', s + |DeviceLabel| + 1, NewlineAt(s, b));
  }

  lemma WellFormedFiller(t: string, s: nat, b: Block)
    requires WellFormed(b) && Laid(t, s, b)
    ensures IndexOf(t, InterfaceLabel, NewlineAt(s, b) + 2) == Some(InterfaceAt(s, b))
  {
    FillerHasNoLabel(t, NewlineAt(s, b) + 1, b.filler);
    IndexOfIs(t, InterfaceLabel, NewlineAt(s, b) + 2, InterfaceAt(s, b));
  }

  /** A filler laid out at `x` and followed by the interface label holds no
      other occurrence of the label after its first character. */
  lemma FillerHasNoLabel(t: string, x: nat, f: string)
    requires OccursAt(t, f, x) && OccursAt(t, InterfaceLabel, x + |f|)
    requires forall p :: 1 <= p < |f| ==> !OccursAt(f + InterfaceLabel, InterfaceLabel, p)
    ensures forall j :: x + 1 <= j < x + |f| ==> !OccursAt(t, InterfaceLabel, j)
  {
    OccursConcat(t, f, InterfaceLabel, x);
    forall j | x + 1 <= j < x + |f|
      ensures !OccursAt(t, InterfaceLabel, j)
    {
      OccursWithin(t, f + InterfaceLabel, x, InterfaceLabel, j - x);
    }
  }

  lemma WellFormedLocal(t: string, s: nat, b: Block)
    requires WellFormed(b) && Laid(t, s, b)
    ensures FindPortLabel(t, InterfaceAt(s, b) + |InterfaceLabel| + 1) == Some(CommaAt(s, b))
    ensures PortLabelAfter(t, CommaAt(s, b)) == Some(PortLabelAt(s, b))
  {
    var m0, c0 := InterfaceAt(s, b), CommaAt(s, b);
    CharAbsent(t, b.localInterface, m0 + |InterfaceLabel|, ',');
    GapOfMatch(t, s, b);
    FindPortLabelIs(t, m0 + |InterfaceLabel| + 1, c0);
  }

  lemma WellFormedRemote(t: string, s: nat, b: Block)
    requires WellFormed(b) && Laid(t, s, b)
    ensures EndAt(s, b) < |t| && t[EndAt(s, b)] == '\n' ==>
              CharIndex(t, '\n', PortLabelAt(s, b) + |PortLabel| + 1) == Some(EndAt(s, b))
    ensures EndAt(s, b) == |t| ==> CharIndex(t, '\n', PortLabelAt(s, b) + |PortLabel| + 1).None?
  {
    var g0, n0 := PortLabelAt(s, b), EndAt(s, b);
    CharAbsent(t, b.remoteInterface, g0 + |PortLabel|, '\n');
    if n0 < |t| && t[n0] == '\n' {
      CharIndexIs(t, '\n', g0 + |PortLabel| + 1, n0);
    } else if n0 == |t| {
      CharIndexFirst(t, '\n', g0 + |PortLabel| + 1);
    }
  }

  /** The first five stages of the search on a well-formed block laid out at
      `s` end at the block's own positions; the last one ends at its final
      newline, and fails when the text ends right after the remote port. */
  lemma WellFormedStages(t: string, s: nat, b: Block)
    requires WellFormed(b) && Laid(t, s, b)
    ensures StagedToPort(t, s, NewlineAt(s, b), InterfaceAt(s, b), CommaAt(s, b), PortLabelAt(s, b))
    ensures EndAt(s, b) < |t| && t[EndAt(s, b)] == '\n' ==>
              CharIndex(t, '\n', PortLabelAt(s, b) + |PortLabel| + 1) == Some(EndAt(s, b))
    ensures EndAt(s, b) == |t| ==> CharIndex(t, '\n', PortLabelAt(s, b) + |PortLabel| + 1).None?
  {
    WellFormedDevice(t, s, b);
    WellFormedFiller(t, s, b);
    WellFormedLocal(t, s, b);
    WellFormedRemote(t, s, b);
  }

  /** A well-formed block laid out at `s` is the text cut at its own
      positions. */
  lemma CuttingLaidBlock(t: string, s: nat, b: Block)
    requires Shaped(b) && Laid(t, s, b) && EndAt(s, b) <= |t|
    ensures Cutting(t, s, CutOf(s, b)) == b
  {
  }

  /** The scanner reads a well-formed block at `s` exactly as written when it
      is terminated by a newline, and finds nothing there when the text ends
      right after its remote port. */
  lemma MatchWellFormed(t: string, s: nat, b: Block)
    requires WellFormed(b) && Laid(t, s, b)
    ensures EndAt(s, b) < |t| && t[EndAt(s, b)] == '\n' ==> MatchBlock(t, s) == Some(b)
    ensures EndAt(s, b) == |t| ==> MatchBlock(t, s).None?
  {
    if EndAt(s, b) < |t| && t[EndAt(s, b)] == '\n' {
      MatchWellFormedTerminated(t, s, b);
    } else if EndAt(s, b) == |t| {
      MatchWellFormedCut(t, s, b);
    }
  }

  lemma MatchWellFormedTerminated(t: string, s: nat, b: Block)
    requires WellFormed(b) && Laid(t, s, b)
    requires EndAt(s, b) < |t| && t[EndAt(s, b)] == '\n'
    ensures MatchBlock(t, s) == Some(b)
  {
    WellFormedStages(t, s, b);
    MatchTerminated(t, s, b, NewlineAt(s, b), InterfaceAt(s, b), CommaAt(s, b), PortLabelAt(s, b), EndAt(s, b));
  }

  lemma MatchWellFormedCut(t: string, s: nat, b: Block)
    requires WellFormed(b) && Laid(t, s, b)
    requires EndAt(s, b) == |t|
    ensures MatchBlock(t, s).None?
  {
    WellFormedStages(t, s, b);
    var k, m, c, g := NewlineAt(s, b), InterfaceAt(s, b), CommaAt(s, b), PortLabelAt(s, b);
    assert CharIndex(t, '\n', g + |PortLabel| + 1).None?;
    CutsFailAtEnd(t, s, k, m, c, g);
  }

  /** Stages that succeed up to the port label but find no final newline
      give no match. */
  lemma CutsFailAtEnd(t: string, s: nat, k: nat, m: nat, c: nat, g: nat)
    requires StagedToPort(t, s, k, m, c, g)
    requires CharIndex(t, '\n', g + |PortLabel| + 1).None?
    ensures MatchBlock(t, s).None?
  {
    CutsThroughPort(t, s, k, m, c, g);
  }

  /** Staged positions that are the positions of `b` read `b`. */
  lemma MatchTerminated(t: string, s: nat, b: Block, k: nat, m: nat, c: nat, g: nat, n: nat)
    requires WellFormed(b) && Laid(t, s, b) && StagedAt(t, s, k, m, c, g, n)
    requires k == NewlineAt(s, b) && m == InterfaceAt(s, b) && c == CommaAt(s, b)
    requires g == PortLabelAt(s, b) && n == EndAt(s, b)
    ensures MatchBlock(t, s) == Some(b)
  {
    var x := Cut(k, m, c, g, n);
    MatchBlockOfStaged(t, s, x);
    CuttingLaidBlock(t, s, b);
    assert CutOf(s, b) == x;
  }

  /** Where the text of `b` laid out at `s` ends. */
  function Next(s: nat, b: Block): nat {
    s + |BlockText(b)|
  }

  /** `m` reads every well-formed block of `t` exactly as written. */
  ghost predicate ReadsWellFormed(t: string, m: Matcher) {
    forall s: nat, b {:trigger OccursAt(t, BlockText(b), s)} ::
      WellFormed(b) && OccursAt(t, BlockText(b), s) ==> m(s) == Some(Hit(Groups(b), Next(s, b)))
  }

  /** The neighbour pattern reads every well-formed block as written. */
  lemma PatternReadsWellFormed(t: string)
    ensures ReadsWellFormed(t, Pattern(t))
  {
    forall s: nat, b | WellFormed(b) && OccursAt(t, BlockText(b), s)
      ensures Pattern(t)(s) == Some(Hit(Groups(b), Next(s, b)))
    {
      PatternReadsBlock(t, s, b);
    }
  }

  lemma PatternReadsBlock(t: string, s: nat, b: Block)
    requires WellFormed(b) && OccursAt(t, BlockText(b), s)
    ensures Pattern(t)(s) == Some(Hit(Groups(b), Next(s, b)))
  {
    TextLaid(t, s, b);
    MatchWellFormedTerminated(t, s, b);
    PatternAt(t, s, b);
  }

  /** A block's text laid out at `s` puts its parts at their positions and
      its final newline at `EndAt(s, b)`. */
  lemma TextLaid(t: string, s: nat, b: Block)
    requires OccursAt(t, BlockText(b), s)
    ensures Laid(t, s, b) && EndAt(s, b) < |t| && t[EndAt(s, b)] == '\n'
  {
    TextLayout(t, s, b);
  }

  /** The report of the pattern where it matches `b`. */
  lemma PatternAt(t: string, s: nat, b: Block)
    requires MatchBlock(t, s) == Some(b)
    ensures Pattern(t)(s) == Some(Hit(Groups(b), Next(s, b)))
  {
  }

  /** One entry of a `show cdp neighbors detail` listing: the text before
      its neighbour block (the lines the previous entry prints after its
      port line, such as holdtime, version and duplex, and the dashed
      separator line) and the block itself. */
  datatype Entry = Entry(lead: string, block: Block)

  /** No `Device ID: ` starts inside `s`, not even one that would run on
      into the `Device ID: ` of a block after it. */
  predicate Quiet(s: string) {
    forall p :: 0 <= p < |s| ==> !OccursAt(s + DeviceLabel, DeviceLabel, p)
  }

  /** The text of the entries, one after the other. A device's whole output
      is this text followed by a trailer (what the device prints after the
      last entry's port line). */
  function Spread(entries: seq<Entry>): string {
    if |entries| == 0 then [] else entries[0].lead + (BlockText(entries[0].block) + Spread(entries[1..]))
  }

  /** The group triples of the entries' blocks, in order. */
  function Neighbors(entries: seq<Entry>): seq<Neighbor> {
    if |entries| == 0 then [] else [Groups(entries[0].block)] + Neighbors(entries[1..])
  }

  /** Every block is well formed, and no `Device ID: ` starts in the text
      before it. */
  predicate CleanEntries(entries: seq<Entry>) {
    forall k :: 0 <= k < |entries| ==> WellFormed(entries[k].block) && Quiet(entries[k].lead)
  }

  /** A quiet text followed by `Device ID: ` at `x`: the first `Device ID: `
      from `x` on is the one after the text. */
  lemma QuietLead(t: string, x: nat, lead: string)
    requires OccursAt(t, lead, x) && OccursAt(t, DeviceLabel, x + |lead|) && Quiet(lead)
    ensures IndexOf(t, DeviceLabel, x) == Some(x + |lead|)
  {
    OccursConcat(t, lead, DeviceLabel, x);
    forall j | x <= j < x + |lead|
      ensures !OccursAt(t, DeviceLabel, j)
    {
      OccursWithin(t, lead + DeviceLabel, x, DeviceLabel, j - x);
    }
    IndexOfIs(t, DeviceLabel, x, x + |lead|);
  }

  /** An occurrence inside `w` is one inside `w + z`. */
  lemma OccursExtend(w: string, z: string, pat: string, p: int)
    requires OccursAt(w, pat, p)
    ensures OccursAt(w + z, pat, p)
  {
    forall k | 0 <= k < |pat|
      ensures (w + z)[p + k] == pat[k]
    {
      assert (w + z)[p + k] == w[p + k];
    }
  }

  /** A quiet text at the end of `t` holds no `Device ID: `. */
  lemma QuietTrailer(t: string, x: nat, trailer: string)
    requires OccursAt(t, trailer, x) && x + |trailer| == |t| && Quiet(trailer)
    ensures IndexOf(t, DeviceLabel, x).None?
  {
    forall j | x <= j
      ensures !OccursAt(t, DeviceLabel, j)
    {
      if OccursAt(t, DeviceLabel, j) {
        OccursWithin(t, trailer, x, DeviceLabel, j - x);
        OccursExtend(trailer, DeviceLabel, DeviceLabel, j - x);
      }
    }
    IndexOfFirst(t, DeviceLabel, x);
  }

  /** The first entry of a listing and the rest after it. */
  lemma SpreadFirst(t: string, s: nat, entries: seq<Entry>)
    requires |entries| > 0 && OccursAt(t, Spread(entries), s)
    ensures OccursAt(t, entries[0].lead, s)
    ensures OccursAt(t, BlockText(entries[0].block), s + |entries[0].lead|)
    ensures OccursAt(t, Spread(entries[1..]), Next(s + |entries[0].lead|, entries[0].block))
  {
    var e := entries[0];
    OccursConcat(t, e.lead, BlockText(e.block) + Spread(entries[1..]), s);
    OccursConcat(t, BlockText(e.block), Spread(entries[1..]), s + |e.lead|);
  }

  /** A block's text starts with `Device ID: `. */
  lemma BlockStart(t: string, s: nat, b: Block)
    requires OccursAt(t, BlockText(b), s)
    ensures OccursAt(t, DeviceLabel, s)
  {
    TextLaid(t, s, b);
  }

  /** `x` is `g` then `y`, and `y` is `a` then `z`: `x` is `g`, `a`, `z`. */
  lemma Glue<T>(x: seq<T>, y: seq<T>, z: seq<T>, g: T, a: seq<T>)
    requires x == [g] + y && y == a + z
    ensures x == ([g] + a) + z
  {
  }

  /** `m` reports the entries' blocks one after another from `s`: for each,
      the next `Device ID: ` is the block's own, the block is read as
      written, and the scan resumes right after it. */
  ghost predicate ReadsEntries(t: string, m: Matcher, s: nat, entries: seq<Entry>)
    decreases |entries|
  {
    |entries| == 0 ||
    (&& IndexOf(t, DeviceLabel, s) == Some(s + |entries[0].lead|)
     && m(s + |entries[0].lead|) == Some(Hit(Groups(entries[0].block), Next(s + |entries[0].lead|, entries[0].block)))
     && ReadsEntries(t, m, Next(s + |entries[0].lead|, entries[0].block), entries[1..]))
  }

  /** Where the scan resumes after reading the entries from `s`. */
  function After(s: nat, entries: seq<Entry>): nat
    decreases |entries|
  {
    if |entries| == 0 then s else After(Next(s + |entries[0].lead|, entries[0].block), entries[1..])
  }

  /** One entry laid out at `s` is found at its block and read as
      written. */
  lemma EntryRead(t: string, m: Matcher, s: nat, e: Entry)
    requires ReadsWellFormed(t, m) && WellFormed(e.block) && Quiet(e.lead)
    requires OccursAt(t, e.lead, s) && OccursAt(t, BlockText(e.block), s + |e.lead|)
    ensures IndexOf(t, DeviceLabel, s) == Some(s + |e.lead|)
    ensures m(s + |e.lead|) == Some(Hit(Groups(e.block), Next(s + |e.lead|, e.block)))
  {
    BlockStart(t, s + |e.lead|, e.block);
    QuietLead(t, s, e.lead);
  }

  /** The first of clean entries laid out at `s` is read as written, and
      the rest are laid out right after its block. */
  lemma SpreadStep(t: string, m: Matcher, s: nat, entries: seq<Entry>)
    requires ReadsWellFormed(t, m) && CleanEntries(entries)
    requires |entries| > 0 && OccursAt(t, Spread(entries), s)
    ensures IndexOf(t, DeviceLabel, s) == Some(s + |entries[0].lead|)
    ensures m(s + |entries[0].lead|) == Some(Hit(Groups(entries[0].block), Next(s + |entries[0].lead|, entries[0].block)))
    ensures CleanEntries(entries[1..])
    ensures OccursAt(t, Spread(entries[1..]), Next(s + |entries[0].lead|, entries[0].block))
  {
    SpreadFirst(t, s, entries);
    EntryRead(t, m, s, entries[0]);
    assert CleanEntries(entries[1..]);
  }

  /** Clean entries laid out from `s` are read one after another by a
      matcher that reads well-formed blocks, and the scan resumes right
      after the last. */
  lemma {:induction false} SpreadReads(t: string, m: Matcher, s: nat, entries: seq<Entry>)
    requires ReadsWellFormed(t, m) && CleanEntries(entries)
    requires OccursAt(t, Spread(entries), s)
    ensures ReadsEntries(t, m, s, entries)
    decreases |entries|
  {
    if |entries| > 0 {
      SpreadStep(t, m, s, entries);
      SpreadReads(t, m, Next(s + |entries[0].lead|, entries[0].block), entries[1..]);
    }
  }

  /** The scan resumes right after the text of the entries. */
  lemma {:induction false} AfterSpread(s: nat, entries: seq<Entry>)
    ensures After(s, entries) == s + |Spread(entries)|
    decreases |entries|
  {
    if |entries| > 0 {
      AfterSpread(Next(s + |entries[0].lead|, entries[0].block), entries[1..]);
    }
  }

  /** Entries the matcher reads one after another are scanned one tuple per
      block, in order, and the scan then carries on after them. */
  lemma {:induction false} ScanEntries(t: string, m: Matcher, s: nat, entries: seq<Entry>)
    requires Fits(t, m) && ReadsEntries(t, m, s, entries)
    ensures ScanWith(t, m, s) == Neighbors(entries) + ScanWith(t, m, After(s, entries))
    decreases |entries|
  {
    if |entries| == 0 {
      assert Neighbors(entries) == [];
    } else {
      var e, rest := entries[0], entries[1..];
      var y := Next(s + |e.lead|, e.block);
      ScanHit(t, m, s, s + |e.lead|, Hit(Groups(e.block), y));
      ScanEntries(t, m, y, rest);
      Glue(ScanWith(t, m, s), ScanWith(t, m, y), ScanWith(t, m, After(y, rest)),
           Groups(e.block), Neighbors(rest));
    }
  }

  /** The neighbour pattern reads clean entries laid out at the start of
      `t` one after another. */
  lemma PatternReadsEntries(t: string, entries: seq<Entry>)
    requires CleanEntries(entries) && OccursAt(t, Spread(entries), 0)
    ensures ReadsEntries(t, Pattern(t), 0, entries)
  {
    PatternReadsWellFormed(t);
    SpreadReads(t, Pattern(t), 0, entries);
  }

  /** Clean entries at the start of `t` are found one tuple per block, in
      order, before whatever the scan finds after them. */
  lemma FindAllSpread(t: string, entries: seq<Entry>)
    requires CleanEntries(entries) && OccursAt(t, Spread(entries), 0)
    ensures FindAll(t) == Neighbors(entries) + ScanFrom(t, |Spread(entries)|)
  {
    PatternReadsEntries(t, entries);
    PatternFits(t);
    ScanEntries(t, Pattern(t), 0, entries);
    AfterSpread(0, entries);
    ScanSame(t, Pattern(t), After(0, entries), |Spread(entries)|);
    FindAllScan(t);
  }

  /** `FindAll` is the scan from the start. */
  lemma FindAllScan(t: string)
    ensures FindAll(t) == ScanFrom(t, 0)
  {
  }

  /** A device's neighbour output made of well-formed entries whose leads
      and trailer hold no `Device ID: ` yields exactly the group triples of
      its blocks, in order: one tuple per neighbour. */
  lemma FindAllListing(entries: seq<Entry>, trailer: string)
    requires CleanEntries(entries) && Quiet(trailer)
    ensures FindAll(Spread(entries) + trailer) == Neighbors(entries)
  {
    var t := Spread(entries) + trailer;
    OccursSelf(t);
    OccursConcat(t, Spread(entries), trailer, 0);
    FindAllSpread(t, entries);
    QuietTrailer(t, |Spread(entries)|, trailer);
  }

  /** A quiet lead and a well-formed block that runs to the end of the
      text without its final newline: the scan from the lead finds
      nothing. */
  lemma ScanCutShort(t: string, p: nat, lead: string, last: Block)
    requires Quiet(lead) && WellFormed(last)
    requires OccursAt(t, lead, p) && OccursAt(t, BlockBody(last), p + |lead|)
    requires |t| == p + |lead| + |BlockBody(last)|
    ensures ScanFrom(t, p) == []
  {
    var x := p + |lead|;
    BodyLayout(t, x, last);
    MatchWellFormed(t, x, last);
    QuietLead(t, p, lead);
    ScanStopsAtFailure(t, p, x);
  }

  /** The same listing cut short after the last entry's port, without its
      final newline: that entry is not matched, and only the triples of the
      entries before it are returned. */
  lemma FindAllUnterminated(entries: seq<Entry>, lead: string, last: Block)
    requires CleanEntries(entries) && Quiet(lead) && WellFormed(last)
    ensures FindAll(Spread(entries) + (lead + BlockBody(last))) == Neighbors(entries)
  {
    var t := Spread(entries) + (lead + BlockBody(last));
    var p := |Spread(entries)|;
    OccursSelf(t);
    OccursConcat(t, Spread(entries), lead + BlockBody(last), 0);
    OccursConcat(t, lead, BlockBody(last), p);
    ScanCutShort(t, p, lead, last);
    FindAllSpread(t, entries);
  }
}
