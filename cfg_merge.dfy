/**
 * `configure_game_fightstick_mapping`: merging a button mapping into the
 * `input` section of a game's `.cfg` tree. The tree is modelled as values:
 * the systems of the root, each with an optional `input` element holding its
 * ports, each port with its `newseq` children.
 */
module CfgMerge {
  import opened Wrappers
  import opened GameData
  import opened ControlPorts

  /** A `newseq` child of a port: its `type` attribute and its text. */
  datatype Newseq = Newseq(seqType: string, text: string)

  /** A `port` element; `defvalue` is `None` when the attribute is absent. */
  datatype Port = Port(tag: string, portType: string, mask: string, defvalue: Option<string>, newseqs: seq<Newseq>)

  /** A port is identified by its `tag`, `type` and `mask` attributes. */
  datatype PortKey = PortKey(tag: string, portType: string, mask: string)

  function KeyOf(p: Port): PortKey { PortKey(p.tag, p.portType, p.mask) }

  function DataKey(pd: PortData): PortKey { PortKey(pd.tag, pd.portType, pd.mask) }

  /** `input_elem.find(port[@tag=..][@type=..][@mask=..])`: the first port with that key. */
  function FindPort(ports: seq<Port>, key: PortKey): (r: Option<nat>)
    ensures r.Some? ==> r.value < |ports| && KeyOf(ports[r.value]) == key
    ensures r.Some? ==> forall j | 0 <= j < r.value :: KeyOf(ports[j]) != key
    ensures r.None? ==> forall j | 0 <= j < |ports| :: KeyOf(ports[j]) != key
    decreases |ports|
  {
    if |ports| == 0 then None
    else if KeyOf(ports[0]) == key then Some(0)
    else match FindPort(ports[1..], key)
         case None => None
         case Some(i) => Some(i + 1)
  }

  /** `port.find("newseq[@type='standard']")`: the first standard `newseq`. */
  function FindStandard(ns: seq<Newseq>): (r: Option<nat>)
    ensures r.Some? ==> r.value < |ns| && ns[r.value].seqType == "standard"
    ensures r.Some? ==> forall j | 0 <= j < r.value :: ns[j].seqType != "standard"
    ensures r.None? ==> forall j | 0 <= j < |ns| :: ns[j].seqType != "standard"
    decreases |ns|
  {
    if |ns| == 0 then None
    else if ns[0].seqType == "standard" then Some(0)
    else match FindStandard(ns[1..])
         case None => None
         case Some(i) => Some(i + 1)
  }

  /** The text MAME reads for a port: that of its first standard `newseq`. */
  function StandardText(p: Port): Option<string>
  {
    match FindStandard(p.newseqs)
    case None => None
    case Some(j) => Some(p.newseqs[j].text)
  }

  /** The port with key `pd`'s key that MAME will find carries `pd`'s joycode and default value. */
  predicate Configured(ports: seq<Port>, pd: PortData)
  {
    match FindPort(ports, DataKey(pd))
    case None => false
    case Some(i) => StandardText(ports[i]) == Some(pd.newseq) && ports[i].defvalue == Some(pd.defvalue)
  }

  /** `add_formatted_port_to_input`: a new port with one standard `newseq`. */
  function FormattedPort(pd: PortData): (r: Port)
    ensures KeyOf(r) == DataKey(pd) && StandardText(r) == Some(pd.newseq) && r.defvalue == Some(pd.defvalue)
  {
    Port(pd.tag, pd.portType, pd.mask, Some(pd.defvalue), [Newseq("standard", pd.newseq)])
  }

  /** The standard `newseq` of a port set to `text`: replaced in place, or added when there is none. */
  function SetStandard(p: Port, text: string, defvalue: string): (r: Port)
    ensures KeyOf(r) == KeyOf(p) && StandardText(r) == Some(text) && r.defvalue == Some(defvalue)
    ensures r == p.(newseqs := r.newseqs, defvalue := Some(defvalue))
    ensures FindStandard(p.newseqs).Some? ==>
              var j := FindStandard(p.newseqs).value;
              && |r.newseqs| == |p.newseqs| && r.newseqs[j] == Newseq("standard", text)
              && forall k | 0 <= k < |p.newseqs| && k != j :: r.newseqs[k] == p.newseqs[k]
    ensures FindStandard(p.newseqs).None? ==> r.newseqs == p.newseqs + [Newseq("standard", text)]
  {
    match FindStandard(p.newseqs)
    case Some(j) =>
      var ns := p.newseqs[j := p.newseqs[j].(text := text)];
      assert forall k | 0 <= k < |ns| :: ns[k].seqType == p.newseqs[k].seqType;
      p.(newseqs := ns, defvalue := Some(defvalue))
    case None =>
      var ns := p.newseqs + [Newseq("standard", text)];
      assert FindStandard(ns) == Some(|p.newseqs|) by {
        assert ns[|p.newseqs|].seqType == "standard";
      }
      p.(newseqs := ns, defvalue := Some(defvalue))
  }

  /** The input port list and the two change counters of the merge loop. */
  datatype MergeState = MergeState(ports: seq<Port>, created: nat, modified: nat)

  /** The two switches of the merge: `create_missing` and `update_existing`. */
  datatype MergeFlags = MergeFlags(createMissing: bool, updateExisting: bool)

  lemma FindPortUpdate(ports: seq<Port>, i: nat, p: Port, key: PortKey)
    requires i < |ports| && KeyOf(p) == KeyOf(ports[i])
    ensures FindPort(ports[i := p], key) == FindPort(ports, key)
  {
    var q := ports[i := p];
    assert forall j | 0 <= j < |ports| :: KeyOf(q[j]) == KeyOf(ports[j]);
    match FindPort(ports, key)
    case None =>
    case Some(m) =>
  }

  lemma FindPortAppend(ports: seq<Port>, p: Port, key: PortKey)
    ensures FindPort(ports + [p], key) ==
            if FindPort(ports, key).Some? then FindPort(ports, key)
            else if KeyOf(p) == key then Some(|ports|) else None
  {
    var q := ports + [p];
    assert forall j | 0 <= j < |ports| :: q[j] == ports[j];
    assert q[|ports|] == p;
  }

  /**
   * One mapping entry merged in: a port with the same key is updated when
   * `update_existing` is set; otherwise a new port is appended when
   * `create_missing` is set. Replacing an existing standard `newseq` counts as
   * a modification; adding a `newseq` or a port counts as a creation.
   */
  function MergeEntry(st: MergeState, pd: PortData, flags: MergeFlags): (r: MergeState)
    ensures FindPort(st.ports, DataKey(pd)).Some? && !flags.updateExisting ==> r == st
    ensures FindPort(st.ports, DataKey(pd)).None? && !flags.createMissing ==> r == st
    ensures FindPort(st.ports, DataKey(pd)).Some? && flags.updateExisting ==>
              Configured(r.ports, pd) && |r.ports| == |st.ports|
              && r.ports[FindPort(st.ports, DataKey(pd)).value]
                 == SetStandard(st.ports[FindPort(st.ports, DataKey(pd)).value], pd.newseq, pd.defvalue)
              && var before := st.ports[FindPort(st.ports, DataKey(pd)).value];
                 if StandardText(before).Some? then r.modified == st.modified + 1 && r.created == st.created
                 else r.created == st.created + 1 && r.modified == st.modified
    ensures FindPort(st.ports, DataKey(pd)).None? && flags.createMissing ==>
              r.ports == st.ports + [FormattedPort(pd)] && Configured(r.ports, pd)
              && r.created == st.created + 1 && r.modified == st.modified
    ensures |st.ports| <= |r.ports| <= |st.ports| + 1
    ensures forall k | 0 <= k < |st.ports| :: KeyOf(r.ports[k]) == KeyOf(st.ports[k])
    ensures forall k | 0 <= k < |st.ports| && FindPort(st.ports, DataKey(pd)) != Some(k) :: r.ports[k] == st.ports[k]
    ensures st.created <= r.created && st.modified <= r.modified
    ensures r.created + r.modified <= st.created + st.modified + 1
  {
    match FindPort(st.ports, DataKey(pd))
    case Some(i) =>
      if flags.updateExisting then
        var p := SetStandard(st.ports[i], pd.newseq, pd.defvalue);
        FindPortUpdate(st.ports, i, p, DataKey(pd));
        var ports := st.ports[i := p];
        if FindStandard(st.ports[i].newseqs).Some? then MergeState(ports, st.created, st.modified + 1)
        else MergeState(ports, st.created + 1, st.modified)
      else st
    case None =>
      if flags.createMissing then
        FindPortAppend(st.ports, FormattedPort(pd), DataKey(pd));
        MergeState(st.ports + [FormattedPort(pd)], st.created + 1, st.modified)
      else st
  }

  /** Merging the same port data twice leaves the ports as merging it once. */
  lemma MergeEntryIdempotent(st: MergeState, pd: PortData, flags: MergeFlags)
    ensures MergeEntry(MergeEntry(st, pd, flags), pd, flags).ports == MergeEntry(st, pd, flags).ports
  {
    var once := MergeEntry(st, pd, flags);
    match FindPort(once.ports, DataKey(pd))
    case None =>
    case Some(i) =>
      if flags.updateExisting {
        var p := once.ports[i];
        assert Configured(once.ports, pd);
        var ns := p.newseqs;
        var j := FindStandard(ns).value;
        assert ns[j := ns[j].(text := pd.newseq)] == ns;
        assert SetStandard(p, pd.newseq, pd.defvalue) == p;
      }
  }

  /** Merging data for one key keeps a port already configured for another key configured. */
  lemma MergeEntryPreserves(st: MergeState, pd: PortData, q: PortData, flags: MergeFlags)
    requires Configured(st.ports, q) && DataKey(q) != DataKey(pd)
    ensures Configured(MergeEntry(st, pd, flags).ports, q)
  {
    var r := MergeEntry(st, pd, flags);
    var i := FindPort(st.ports, DataKey(q)).value;
    match FindPort(st.ports, DataKey(pd))
    case Some(m) =>
      if flags.updateExisting {
        FindPortUpdate(st.ports, m, r.ports[m], DataKey(q));
        assert r.ports == st.ports[m := r.ports[m]];
      }
    case None =>
      if flags.createMissing {
        FindPortAppend(st.ports, FormattedPort(pd), DataKey(q));
      }
  }

  /** What one run of the merge loop depends on besides the mapping itself. */
  datatype MergeContext = MergeContext(db: Db, rom: string, version: MameVersion, fuel: nat, flags: MergeFlags)

  /** The port data an entry `(control, joycode)` yields; entries with an empty joycode are skipped. */
  function EntryPort(ctx: MergeContext, e: (string, string)): Option<PortData>
  {
    if e.1 == "" then None
    else ControlToPortData(ctx.db, e.0, e.1, ctx.version, Some(ctx.rom), ctx.fuel)
  }

  /** One iteration of the merge loop. */
  function MergeStep(ctx: MergeContext, st: MergeState, e: (string, string)): MergeState
  {
    match EntryPort(ctx, e)
    case None => st
    case Some(pd) => MergeEntry(st, pd, ctx.flags)
  }

  /** The merge loop over the entries of the mapping, in dictionary order. */
  function MergeAll(ctx: MergeContext, st: MergeState, es: seq<(string, string)>): MergeState
    decreases |es|
  {
    if |es| == 0 then st
    else MergeStep(ctx, MergeAll(ctx, st, es[..|es| - 1]), es[|es| - 1])
  }

  /**
   * Each entry creates or modifies at most one thing, existing ports stay in
   * place with their keys, and at most one port per entry is added.
   */
  lemma {:induction false} MergeAllBounds(ctx: MergeContext, st: MergeState, es: seq<(string, string)>)
    ensures var r := MergeAll(ctx, st, es);
            st.created <= r.created && st.modified <= r.modified
            && r.created + r.modified <= st.created + st.modified + |es|
            && |st.ports| <= |r.ports| <= |st.ports| + |es|
            && forall k | 0 <= k < |st.ports| :: KeyOf(r.ports[k]) == KeyOf(st.ports[k])
    decreases |es|
  {
    if |es| > 0 {
      MergeAllBounds(ctx, st, es[..|es| - 1]);
    }
  }

  /** With both switches off, the merge changes nothing. */
  lemma {:induction false} MergeAllReadOnly(ctx: MergeContext, st: MergeState, es: seq<(string, string)>)
    requires !ctx.flags.createMissing && !ctx.flags.updateExisting
    ensures MergeAll(ctx, st, es) == st
    decreases |es|
  {
    if |es| > 0 {
      MergeAllReadOnly(ctx, st, es[..|es| - 1]);
    }
  }

  /** Without `create_missing` no port is added. */
  lemma {:induction false} MergeAllUpdateOnly(ctx: MergeContext, st: MergeState, es: seq<(string, string)>)
    requires !ctx.flags.createMissing
    ensures |MergeAll(ctx, st, es).ports| == |st.ports|
    decreases |es|
  {
    if |es| > 0 {
      MergeAllUpdateOnly(ctx, st, es[..|es| - 1]);
    }
  }

  /** The entry's port data, when it has some, has the given key. */
  predicate HasKey(ctx: MergeContext, e: (string, string), key: PortKey)
  {
    EntryPort(ctx, e).Some? && DataKey(EntryPort(ctx, e).value) == key
  }

  /** A port that no entry's port data addresses is left exactly as it was. */
  lemma {:induction false} MergeAllUntouched(ctx: MergeContext, st: MergeState, es: seq<(string, string)>, k: nat)
    requires k < |st.ports|
    requires forall m | 0 <= m < |es| :: !HasKey(ctx, es[m], KeyOf(st.ports[k]))
    ensures k < |MergeAll(ctx, st, es).ports| && MergeAll(ctx, st, es).ports[k] == st.ports[k]
    decreases |es|
  {
    MergeAllBounds(ctx, st, es);
    if |es| > 0 {
      var init := es[..|es| - 1];
      assert forall m | 0 <= m < |init| :: init[m] == es[m];
      MergeAllUntouched(ctx, st, init, k);
      MergeAllBounds(ctx, st, init);
      var mid := MergeAll(ctx, st, init);
      match EntryPort(ctx, es[|es| - 1])
      case None =>
      case Some(pd) =>
        assert DataKey(pd) != KeyOf(mid.ports[k]);
        assert FindPort(mid.ports, DataKey(pd)) != Some(k);
    }
  }

  /**
   * With both switches on, every entry that yields port data ends up
   * configured, unless a later entry addresses the same port (the later one wins).
   */
  lemma {:induction false} MergeAllLastWins(ctx: MergeContext, st: MergeState, es: seq<(string, string)>, k: nat)
    requires ctx.flags.createMissing && ctx.flags.updateExisting
    requires k < |es| && EntryPort(ctx, es[k]).Some?
    requires forall m | k < m < |es| :: !HasKey(ctx, es[m], DataKey(EntryPort(ctx, es[k]).value))
    ensures Configured(MergeAll(ctx, st, es).ports, EntryPort(ctx, es[k]).value)
    decreases |es|
  {
    var init := es[..|es| - 1];
    var pd := EntryPort(ctx, es[k]).value;
    var mid := MergeAll(ctx, st, init);
    if k < |es| - 1 {
      assert forall m | 0 <= m < |init| :: init[m] == es[m];
      MergeAllLastWins(ctx, st, init, k);
      match EntryPort(ctx, es[|es| - 1])
      case None =>
      case Some(q) =>
        MergeEntryPreserves(mid, q, pd, ctx.flags);
    }
  }

  /** A prefix one entry longer is the shorter prefix followed by that entry. */
  lemma MergeAllSnoc(ctx: MergeContext, st: MergeState, es: seq<(string, string)>, i: nat)
    requires i < |es|
    ensures MergeAll(ctx, st, es[..i + 1]) == MergeStep(ctx, MergeAll(ctx, st, es[..i]), es[i])
  {
    var pre := es[..i + 1];
    assert pre[..|pre| - 1] == es[..i];
    assert pre[|pre| - 1] == es[i];
  }

  /**
   * The merge loop as the source writes it: entries are visited in order and
   * the input's ports are updated in place.
   */
  method MergeMappings(ctx: MergeContext, ports: seq<Port>, es: seq<(string, string)>)
    returns (result: seq<Port>, created: nat, modified: nat)
    ensures MergeState(result, created, modified) == MergeAll(ctx, MergeState(ports, 0, 0), es)
  {
    result, created, modified := ports, 0, 0;
    var i := 0;
    while i < |es|
      invariant 0 <= i <= |es|
      invariant MergeState(result, created, modified) == MergeAll(ctx, MergeState(ports, 0, 0), es[..i])
    {
      MergeAllSnoc(ctx, MergeState(ports, 0, 0), es, i);
      ghost var step := MergeStep(ctx, MergeState(result, created, modified), es[i]);
      var (control, joycode) := es[i];
      if joycode != "" {
        var portData := ControlToPortData(ctx.db, control, joycode, ctx.version, Some(ctx.rom), ctx.fuel);
        if portData.Some? {
          var pd := portData.value;
          var existing := FindPort(result, DataKey(pd));
          if existing.Some? {
            if ctx.flags.updateExisting {
              var port := result[existing.value];
              var standard := FindStandard(port.newseqs);
              if standard.Some? {
                port := port.(newseqs := port.newseqs[standard.value := port.newseqs[standard.value].(text := pd.newseq)]);
                modified := modified + 1;
              } else {
                port := port.(newseqs := port.newseqs + [Newseq("standard", pd.newseq)]);
                created := created + 1;
              }
              port := port.(defvalue := Some(pd.defvalue));
              result := result[existing.value := port];
            }
          } else if ctx.flags.createMissing {
            result := result + [FormattedPort(pd)];
            created := created + 1;
          }
        }
      }
      assert MergeState(result, created, modified) == step;
      i := i + 1;
    }
    assert es[..i] == es;
  }

  /** A `system` element of the root: its `name` and its `input` child, if any. */
  datatype System = System(name: string, input: Option<seq<Port>>)

  /** The `mameconfig` root: its `version` attribute and its systems. */
  datatype CfgTree = CfgTree(version: string, systems: seq<System>)

  /** `root.find(system[@name=rom])`: the first system with that name. */
  function FindSystem(systems: seq<System>, rom: string): (r: Option<nat>)
    ensures r.Some? ==> r.value < |systems| && systems[r.value].name == rom
    ensures r.Some? ==> forall j | 0 <= j < r.value :: systems[j].name != rom
    ensures r.None? ==> forall j | 0 <= j < |systems| :: systems[j].name != rom
    decreases |systems|
  {
    if |systems| == 0 then None
    else if systems[0].name == rom then Some(0)
    else match FindSystem(systems[1..], rom)
         case None => None
         case Some(i) => Some(i + 1)
  }

  /** `create_new_cfg_structure`: a version-10 root with one empty system for the ROM. */
  function NewCfgStructure(rom: string): (r: CfgTree)
    ensures r.version == "10" && |r.systems| == 1
    ensures FindSystem(r.systems, rom) == Some(0) && r.systems[0].input.None?
  {
    CfgTree("10", [System(rom, None)])
  }

  /** The root the merge starts from: the parsed file, or a new structure when there is none. */
  function StartTree(rom: string, existing: Option<CfgTree>): CfgTree
  {
    if existing.Some? then existing.value else NewCfgStructure(rom)
  }

  /** The root's systems after finding or appending the ROM's system, and that system's index. */
  function WithSystem(t: CfgTree, rom: string): (r: (seq<System>, nat))
    ensures r.1 < |r.0| && r.0[r.1].name == rom && FindSystem(r.0, rom) == Some(r.1)
    ensures FindSystem(t.systems, rom).Some? ==> r == (t.systems, FindSystem(t.systems, rom).value)
    ensures FindSystem(t.systems, rom).None? ==> r == (t.systems + [System(rom, None)], |t.systems|)
  {
    match FindSystem(t.systems, rom)
    case Some(i) => (t.systems, i)
    case None =>
      var systems := t.systems + [System(rom, None)];
      assert forall j | 0 <= j < |t.systems| :: systems[j] == t.systems[j];
      (systems, |t.systems|)
  }

  /** The ports of the ROM's `input` element before the merge (none when it has to be created). */
  function InitialPorts(rom: string, existing: Option<CfgTree>): seq<Port>
  {
    var (systems, i) := WithSystem(StartTree(rom, existing), rom);
    if systems[i].input.Some? then systems[i].input.value else []
  }

  /** The outcome the source reports on success: the tree to save and the two counts. */
  datatype ConfigureResult = ConfigureResult(tree: CfgTree, createdCount: nat, modifiedCount: nat)

  /**
   * `configure_game_fightstick_mapping` on a parsed (or missing) `.cfg`: the
   * ROM's system and its `input` are found or created, the mapping is merged
   * into that input, and every other system is left as it was.
   */
  function ConfigureTree(ctx: MergeContext, existing: Option<CfgTree>, mappings: seq<(string, string)>): (r: ConfigureResult)
    ensures r.tree.version == StartTree(ctx.rom, existing).version
    ensures existing.None? ==> r.tree.version == "10" && |r.tree.systems| == 1
    ensures var t := StartTree(ctx.rom, existing);
            |r.tree.systems| == |t.systems| + (if FindSystem(t.systems, ctx.rom).Some? then 0 else 1)
            && forall j | 0 <= j < |t.systems| && Some(j) != FindSystem(t.systems, ctx.rom) :: r.tree.systems[j] == t.systems[j]
    ensures var merged := MergeAll(ctx, MergeState(InitialPorts(ctx.rom, existing), 0, 0), mappings);
            var i := FindSystem(r.tree.systems, ctx.rom);
            i.Some? && r.tree.systems[i.value].input == Some(merged.ports)
            && r.createdCount == merged.created && r.modifiedCount == merged.modified
  {
    var t := StartTree(ctx.rom, existing);
    var (systems, i) := WithSystem(t, ctx.rom);
    var merged := MergeAll(ctx, MergeState(InitialPorts(ctx.rom, existing), 0, 0), mappings);
    var updated := systems[i := systems[i].(input := Some(merged.ports))];
    assert FindSystem(updated, ctx.rom) == Some(i) by {
      assert forall j | 0 <= j < |systems| :: updated[j].name == systems[j].name;
    }
    ConfigureResult(t.(systems := updated), merged.created, merged.modified)
  }

  /** With both switches off, the ROM's input holds exactly the ports it had, and nothing is counted. */
  lemma ConfigureTreeReadOnly(ctx: MergeContext, existing: Option<CfgTree>, mappings: seq<(string, string)>)
    requires !ctx.flags.createMissing && !ctx.flags.updateExisting
    ensures var r := ConfigureTree(ctx, existing, mappings);
            r.createdCount == 0 && r.modifiedCount == 0
            && r.tree.systems[FindSystem(r.tree.systems, ctx.rom).value].input == Some(InitialPorts(ctx.rom, existing))
  {
    MergeAllReadOnly(ctx, MergeState(InitialPorts(ctx.rom, existing), 0, 0), mappings);
  }

  /** The reported counts never exceed the number of mapping entries. */
  lemma ConfigureTreeCounts(ctx: MergeContext, existing: Option<CfgTree>, mappings: seq<(string, string)>)
    ensures var r := ConfigureTree(ctx, existing, mappings);
            r.createdCount + r.modifiedCount <= |mappings|
  {
    MergeAllBounds(ctx, MergeState(InitialPorts(ctx.rom, existing), 0, 0), mappings);
  }

  /** The configuration step, with the merge loop run imperatively. */
  method ConfigureGame(ctx: MergeContext, existing: Option<CfgTree>, mappings: seq<(string, string)>)
    returns (r: ConfigureResult)
    ensures r == ConfigureTree(ctx, existing, mappings)
  {
    var root := if existing.Some? then existing.value else NewCfgStructure(ctx.rom);
    var (systems, i) := WithSystem(root, ctx.rom);
    var ports := if systems[i].input.Some? then systems[i].input.value else [];
    var merged, created, modified := MergeMappings(ctx, ports, mappings);
    systems := systems[i := systems[i].(input := Some(merged))];
    r := ConfigureResult(root.(systems := systems), created, modified);
  }
}
