/**
 * The in-memory game database (`gamedata_json`) and the two lookups over it:
 * `find_parent_rom` (clone to parent) and `get_control_data_with_parent_fallback`
 * (a control's `{tag, mask}` found by walking the parent chain).
 */
module GameData {
  import opened Wrappers
  import opened Dicts

  /** One value of a ROM's `controls` dictionary: a `{tag, mask}` pair, or anything else. */
  datatype ControlEntry = PortRef(tag: string, mask: string) | Malformed

  /**
   * One ROM's record. `None` stands for a key the JSON object does not have.
   * `controls` maps control names to entries; a missing `controls` key behaves
   * exactly like an empty one, so both are the empty map. `clones` holds the keys
   * of the `clones` dictionary (empty when the field is absent or not a dictionary).
   */
  datatype RomRecord = RomRecord(
    description: Option<string>,
    mappings: Option<seq<string>>,
    controls: map<string, ControlEntry>,
    parent: Option<string>,
    cloneof: Option<string>,
    clones: set<string>,
    playercount: Option<int>,
    buttons: Option<int>,
    sticks: Option<int>)

  /** The database in dictionary order: ROM name and record. */
  type Db = Dict<RomRecord>

  /** The valid `{tag, mask}` entry `rec` has for `control`, if any. */
  function RecordControl(rec: RomRecord, control: string): Option<ControlEntry>
  {
    if control in rec.controls && rec.controls[control].PortRef? then Some(rec.controls[control]) else None
  }

  /** The valid entry the ROM named `rom` itself has for `control`, if any. */
  function OwnControl(db: Db, rom: string, control: string): (r: Option<ControlEntry>)
    ensures r.Some? ==> HasKey(db, rom) && r.value.PortRef?
  {
    match Get(db, rom)
    case None => None
    case Some(rec) => RecordControl(rec, control)
  }

  /** Index of the first ROM, in dictionary order, whose `clones` lists `rom`. */
  function CloneHolder(db: Db, rom: string): (r: Option<nat>)
    ensures r.Some? ==> r.value < |db| && rom in db[r.value].1.clones
    ensures r.Some? ==> forall j | 0 <= j < r.value :: rom !in db[j].1.clones
    ensures r.None? ==> forall j | 0 <= j < |db| :: rom !in db[j].1.clones
    decreases |db|
  {
    if |db| == 0 then None
    else if rom in db[0].1.clones then Some(0)
    else match CloneHolder(db[1..], rom)
         case None => None
         case Some(i) => Some(i + 1)
  }

  /** The hard-coded parent table used when the database says nothing. */
  const CommonParents: map<string, string> := map[
    "sf2rb" := "sf2ce", "sf2rb2" := "sf2ce", "sf2rb3" := "sf2ce", "sf2red" := "sf2ce",
    "sf2reda" := "sf2ce", "sf2ce" := "sf2", "sf2hf" := "sf2", "sf2t" := "sf2"]

  /** The parent fields of the ROM's own record, if it is in the database. */
  function OwnParentField(db: Db, rom: string): Option<string>
  {
    match Get(db, rom)
    case None => None
    case Some(rec) => if rec.parent.Some? then rec.parent else rec.cloneof
  }

  /**
   * `find_parent_rom`: the ROM's own `parent` field, else its `cloneof` field,
   * else the first ROM whose `clones` dictionary lists it, else the fixed table.
   */
  function FindParentRom(db: Db, rom: string): (r: Option<string>)
    ensures Get(db, rom).Some? && Get(db, rom).value.parent.Some? ==> r == Get(db, rom).value.parent
    ensures Get(db, rom).Some? && Get(db, rom).value.parent.None? && Get(db, rom).value.cloneof.Some? ==>
              r == Get(db, rom).value.cloneof
    ensures OwnParentField(db, rom).None? ==>
              forall i | 0 <= i < |db| && rom in db[i].1.clones && (forall j | 0 <= j < i :: rom !in db[j].1.clones) ::
                r == Some(db[i].0)
    ensures OwnParentField(db, rom).None? && (forall i | 0 <= i < |db| :: rom !in db[i].1.clones) ==>
              r == (if rom in CommonParents then Some(CommonParents[rom]) else None)
    ensures r.None? <==> OwnParentField(db, rom).None? && CloneHolder(db, rom).None? && rom !in CommonParents
  {
    match OwnParentField(db, rom)
    case Some(p) => Some(p)
    case None =>
      match CloneHolder(db, rom)
      case Some(i) => Some(db[i].0)
      case None => if rom in CommonParents then Some(CommonParents[rom]) else None
  }

  /** The parent the lookup walks to: `find_parent_rom`'s answer when it is truthy (a non-empty name). */
  function ParentStep(db: Db, rom: string): Option<string>
  {
    match FindParentRom(db, rom)
    case None => None
    case Some(p) => if p != "" then Some(p) else None
  }

  /**
   * The outcome of the parent walk. `Exhausted` is the walk running out of
   * stack frames, which in the source is a `RecursionError`.
   */
  datatype LookupResult = Found(entry: ControlEntry, source: string) | Missing | Exhausted

  /**
   * `get_control_data_with_parent_fallback`. `fuel` is the number of stack
   * frames left: each call, the first included, uses one. The source has no
   * guard against a cycle of parents; such a cycle ends in `Exhausted`.
   */
  function LookupControl(db: Db, rom: string, control: string, fuel: nat): LookupResult
    decreases fuel
  {
    if fuel == 0 then Exhausted
    else match OwnControl(db, rom, control)
      case Some(e) => Found(e, rom)
      case None =>
        match ParentStep(db, rom)
        case None => Missing
        case Some(p) =>
          match OwnControl(db, p, control)
          case Some(e) => Found(e, p)
          case None => LookupControl(db, p, control, fuel - 1)
  }

  /** The ROM followed by its ancestors, taking at most `n` parent steps. */
  function Ancestors(db: Db, rom: string, n: nat): (r: seq<string>)
    ensures 1 <= |r| <= n + 1 && r[0] == rom
    ensures forall i | 0 <= i < |r| - 1 :: ParentStep(db, r[i]) == Some(r[i + 1])
    ensures |r| <= n ==> ParentStep(db, r[|r| - 1]).None?
    decreases n
  {
    if n == 0 then [rom]
    else match ParentStep(db, rom)
      case None => [rom]
      case Some(p) => [rom] + Ancestors(db, p, n - 1)
  }

  /** Index of the first ROM in `roms` that has a valid entry of its own for `control`. */
  function FirstOwner(db: Db, roms: seq<string>, control: string): (r: Option<nat>)
    ensures r.Some? ==> r.value < |roms| && OwnControl(db, roms[r.value], control).Some?
    ensures r.Some? ==> forall j | 0 <= j < r.value :: OwnControl(db, roms[j], control).None?
    ensures r.None? ==> forall j | 0 <= j < |roms| :: OwnControl(db, roms[j], control).None?
    decreases |roms|
  {
    if |roms| == 0 then None
    else if OwnControl(db, roms[0], control).Some? then Some(0)
    else match FirstOwner(db, roms[1..], control)
         case None => None
         case Some(i) => Some(i + 1)
  }

  /**
   * The reference reading of the parent walk: list the ancestors first, then
   * take the first one that has the control; the walk is exhausted when the
   * frames run out before the chain ends and nobody on it has the control.
   */
  function ChainLookup(db: Db, rom: string, control: string, fuel: nat): LookupResult
  {
    var chain := Ancestors(db, rom, fuel);
    match FirstOwner(db, chain, control)
    case Some(i) => Found(OwnControl(db, chain[i], control).value, chain[i])
    case None => if |chain| == fuel + 1 then Exhausted else Missing
  }

  /** A ROM without the control in front of a list shifts the first owner by one. */
  lemma FirstOwnerCons(db: Db, x: string, rest: seq<string>, control: string)
    requires OwnControl(db, x, control).None?
    ensures FirstOwner(db, [x] + rest, control)
            == match FirstOwner(db, rest, control) case None => None case Some(i) => Some(i + 1)
  {
    assert ([x] + rest)[0] == x && ([x] + rest)[1..] == rest;
  }

  /** One step of the chain reading: a ROM without the control defers to its parent's chain. */
  lemma {:induction false} ChainLookupStep(db: Db, rom: string, p: string, control: string, fuel: nat)
    requires fuel >= 1 && OwnControl(db, rom, control).None? && ParentStep(db, rom) == Some(p)
    ensures ChainLookup(db, rom, control, fuel) == ChainLookup(db, p, control, fuel - 1)
  {
    var chain := Ancestors(db, rom, fuel);
    var rest := Ancestors(db, p, fuel - 1);
    assert chain == [rom] + rest;
    FirstOwnerCons(db, rom, rest, control);
    match FirstOwner(db, rest, control)
    case Some(i) =>
      assert chain[i + 1] == rest[i];
    case None =>
      assert |chain| == |rest| + 1;
  }

  /** The recursive lookup agrees with the chain reading whenever it has a frame to start in. */
  lemma {:induction false} LookupControlIsChainLookup(db: Db, rom: string, control: string, fuel: nat)
    requires fuel >= 1
    ensures LookupControl(db, rom, control, fuel) == ChainLookup(db, rom, control, fuel)
    decreases fuel
  {
    if OwnControl(db, rom, control).None? {
      match ParentStep(db, rom)
      case None =>
      case Some(p) =>
        ChainLookupStep(db, rom, p, control, fuel);
        if OwnControl(db, p, control).None? && fuel > 1 {
          LookupControlIsChainLookup(db, p, control, fuel - 1);
        }
    }
  }

  /** A chain that ends before the frames run out is never exhausted: the answer is the first owner on it. */
  lemma LookupControlAcyclic(db: Db, rom: string, control: string, fuel: nat)
    requires fuel >= 1 && |Ancestors(db, rom, fuel)| <= fuel
    ensures LookupControl(db, rom, control, fuel) != Exhausted
    ensures LookupControl(db, rom, control, fuel).Found? <==>
              exists i | 0 <= i < |Ancestors(db, rom, fuel)| :: OwnControl(db, Ancestors(db, rom, fuel)[i], control).Some?
  {
    LookupControlIsChainLookup(db, rom, control, fuel);
  }

  /** What the walk returns is the source ROM's own `{tag, mask}` entry, found on the chain. */
  lemma LookupControlFound(db: Db, rom: string, control: string, fuel: nat)
    requires LookupControl(db, rom, control, fuel).Found?
    ensures var res := LookupControl(db, rom, control, fuel);
            res.source in Ancestors(db, rom, fuel) && OwnControl(db, res.source, control) == Some(res.entry)
            && res.entry.PortRef?
  {
    LookupControlIsChainLookup(db, rom, control, fuel);
  }

  /** Extra frames do not change an answer that was reached. */
  lemma {:induction false} LookupControlMoreFuel(db: Db, rom: string, control: string, fuel: nat, more: nat)
    requires LookupControl(db, rom, control, fuel) != Exhausted && more >= fuel
    ensures LookupControl(db, rom, control, more) == LookupControl(db, rom, control, fuel)
    decreases fuel
  {
    if OwnControl(db, rom, control).None? {
      match ParentStep(db, rom)
      case None =>
      case Some(p) =>
        if OwnControl(db, p, control).None? {
          LookupControlMoreFuel(db, p, control, fuel - 1, more - 1);
        }
    }
  }

  /** A ROM that is its own parent and lacks the control exhausts every stack (the missing cycle guard). */
  lemma {:induction false} LookupControlSelfCycle(db: Db, rom: string, control: string, fuel: nat)
    requires ParentStep(db, rom) == Some(rom) && OwnControl(db, rom, control).None?
    ensures LookupControl(db, rom, control, fuel) == Exhausted
    decreases fuel
  {
    if fuel > 0 {
      LookupControlSelfCycle(db, rom, control, fuel - 1);
    }
  }
}
