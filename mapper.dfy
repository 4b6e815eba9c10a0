/**
 * The state-changing side of `FightstickMapper`: the game database it loads
 * user mappings into, the custom layouts it knows, and the preset dropdown
 * it keeps up to date.
 */
module Mapper {
  import opened Wrappers
  import opened Dicts
  import opened GameData
  import opened UserMappings
  import opened Presets

  class FightstickMapper {
    /** `gamedata_json`, in dictionary order. */
    var gamedata: Db
    /** `custom_layouts`, keyed by layout id. */
    var customLayouts: Dict<CustomLayout>
    /** The values the preset dropdown offers. */
    var presetOptions: seq<string>
    /** `preset_descriptions`. */
    var presetDescriptions: Dict<string>
    /** `mapping_presets`: fixed once the mapper is built. */
    const mappingPresets: Dict<Preset>

    /**
     * `__init__` with the settings and layouts already loaded: building the
     * presets card fills the dropdown from the presets and the layouts.
     */
    constructor (gamedata: Db, customLayouts: Dict<CustomLayout>)
      ensures this.gamedata == gamedata && this.customLayouts == customLayouts
      ensures mappingPresets == MappingPresets
      ensures presetOptions == PresetOptions(MappingPresets, customLayouts)
      ensures presetDescriptions == PresetDescriptions(MappingPresets, customLayouts)
    {
      this.gamedata := gamedata;
      this.customLayouts := customLayouts;
      mappingPresets := MappingPresets;
      presetOptions := [];
      presetDescriptions := [];
      new;
      RefreshPresetDropdown();
    }

    /** `add_rom_with_mapping`: scans the database in order for the first template and copies it. */
    method AddRomWithMapping(rom: string, mappingType: string)
      modifies this
      ensures gamedata == AddRom(old(gamedata), rom, mappingType)
      ensures customLayouts == old(customLayouts)
      ensures presetOptions == old(presetOptions) && presetDescriptions == old(presetDescriptions)
    {
      var templateRom: Option<nat> := None;
      var i := 0;
      while i < |gamedata|
        invariant 0 <= i <= |gamedata|
        invariant templateRom.None? ==> forall j | 0 <= j < i :: !IsTemplate(gamedata[j].1, mappingType)
        invariant templateRom == FindTemplate(gamedata, mappingType) || templateRom.None?
        invariant templateRom.Some? ==> templateRom == FindTemplate(gamedata, mappingType)
      {
        var rec := gamedata[i].1;
        if rec.mappings.Some? && mappingType in rec.mappings.value && |rec.controls| > 0 {
          templateRom := Some(i);
          TemplateAt(gamedata, mappingType, i);
          break;
        }
        i := i + 1;
      }
      if templateRom.None? || gamedata[templateRom.value].0 == "" {
        return;
      }
      var template := gamedata[templateRom.value].1;
      gamedata := Put(gamedata, rom, NewRomRecord(rom, mappingType, template));
    }

    /** The body of `load_user_rom_mappings`' loop for one line; `added` is what it adds to the count. */
    method ApplyUserLine(line: string) returns (added: nat)
      modifies this
      ensures (gamedata, added) == ApplyLine(old(gamedata), line)
      ensures customLayouts == old(customLayouts)
      ensures presetOptions == old(presetOptions) && presetDescriptions == old(presetDescriptions)
    {
      added := 0;
      var kind := ParseLine(line);
      if kind.Mapping? {
        var rom, mappingType := kind.rom, kind.mappingType;
        if !HasKey(gamedata, rom) {
          AddRomWithMapping(rom, mappingType);
          added := 1;
        } else {
          var rec := Get(gamedata, rom).value;
          gamedata := Put(gamedata, rom, AddMapping(rec, mappingType));
        }
      }
    }

    /**
     * `load_user_rom_mappings` over the lines of the mappings file: each line
     * is stripped, parsed and applied in order; the count grows once per valid
     * line naming a ROM that was not yet in the database.
     */
    method LoadUserRomMappings(lines: seq<string>) returns (addedCount: nat)
      modifies this
      ensures (gamedata, addedCount) == ApplyLines(old(gamedata), lines)
      ensures customLayouts == old(customLayouts)
      ensures presetOptions == old(presetOptions) && presetDescriptions == old(presetDescriptions)
    {
      addedCount := 0;
      var i := 0;
      while i < |lines|
        invariant 0 <= i <= |lines|
        invariant gamedata == ApplyLines(old(gamedata), lines[..i]).0
        invariant addedCount == ApplyLines(old(gamedata), lines[..i]).1
        invariant customLayouts == old(customLayouts)
        invariant presetOptions == old(presetOptions) && presetDescriptions == old(presetDescriptions)
      {
        ApplyLinesSnoc(old(gamedata), lines, i);
        ghost var step := ApplyLine(gamedata, lines[i]);
        var added := ApplyUserLine(lines[i]);
        assert gamedata == step.0 && added == step.1;
        addedCount := addedCount + added;
        i := i + 1;
      }
      assert lines[..i] == lines;
    }

    /** `get_all_preset_options`: builds the option list by appending. */
    method GetAllPresetOptions() returns (options: seq<string>)
      ensures options == PresetOptions(mappingPresets, customLayouts)
    {
      var presets, customs := mappingPresets, customLayouts;
      options := [AllGames];
      var i := 0;
      while i < |presets|
        invariant 0 <= i <= |presets|
        invariant |options| == 1 + i && options[0] == AllGames
        invariant forall k | 0 <= k < i :: options[1 + k] == presets[k].1.name
      {
        options := options + [presets[i].1.name];
        i := i + 1;
      }
      if |customs| > 0 {
        options := options + [Separator];
        var j := 0;
        while j < |customs|
          invariant 0 <= j <= |customs|
          invariant |options| == 2 + |presets| + j && options[0] == AllGames && options[1 + |presets|] == Separator
          invariant forall k | 0 <= k < |presets| :: options[1 + k] == presets[k].1.name
          invariant forall k | 0 <= k < j :: options[2 + |presets| + k] == CustomDisplayName(customs[k].1)
        {
          options := options + [CustomDisplayName(customs[j].1)];
          j := j + 1;
        }
      }
      PresetOptionsByIndex(presets, customs, options);
    }

    /** `refresh_preset_dropdown`: recomputes the offered options and the description of each. */
    method RefreshPresetDropdown()
      modifies this
      ensures presetOptions == PresetOptions(mappingPresets, customLayouts)
      ensures presetDescriptions == PresetDescriptions(mappingPresets, customLayouts)
      ensures gamedata == old(gamedata) && customLayouts == old(customLayouts)
    {
      var presets, customs := mappingPresets, customLayouts;
      var options := GetAllPresetOptions();
      var descriptions := BuildPresetDescriptions(presets, customs);
      presetOptions := options;
      presetDescriptions := descriptions;
    }
  }

  /** The first template the scan meets is the one `FindTemplate` names. */
  lemma {:induction false} TemplateAt(db: Db, mappingType: string, i: nat)
    requires i < |db| && IsTemplate(db[i].1, mappingType)
    requires forall j | 0 <= j < i :: !IsTemplate(db[j].1, mappingType)
    ensures FindTemplate(db, mappingType) == Some(i)
    decreases i
  {
    if i > 0 {
      TemplateAt(db[1..], mappingType, i - 1);
    }
  }
}
