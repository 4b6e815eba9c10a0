# Fightstick mapper data layer

A Dafny model of the data logic inside the `FightstickMapper` class of the
MAME Fightstick Button Mapper (`FightStickMapper/fightstick_mapper.py`).
This layer takes a fighting-game button layout and rewrites a game's MAME
`.cfg` input configuration with it. It covers:

- the in-memory game database (`gamedata_json`);
- the user ROM-mapping file, whose `rom = type` lines add mapping types to
  ROMs or add new ROMs copied from a template ROM;
- parent resolution for clone ROMs, and the lookup of a control's
  `{tag, mask}` along the parent chain;
- the synthesis of one `port` element: its tag, mask, `defvalue`, and the
  joycode rewritten for the chosen MAME version;
- the merge of a layout into the `input` section of a `.cfg` tree, counting
  created and modified buttons;
- the remapping dialog's P1-to-P2 mirroring, the game-list order, the
  cleaning of custom-layout file names, and the preset dropdown with its
  descriptions.

Python dictionaries are ordered sequences of `(key, value)` pairs
(module `Dicts`). Assigning to a present key keeps its place, and a new key
is appended. Iteration order matters in the source: it decides which
template ROM and which clone holder are found first.

Module layout:

- `Wrappers`: the `Option` type.
- `Dicts`: ordered dictionaries.
- `Text`: the Python string operations used.
- `GameData`: the database, `find_parent_rom` and the parent walk.
- `UserMappings`: the user mapping file.
- `ControlPorts`: `mame_control_to_port_data`.
- `CfgMerge`: `configure_game_fightstick_mapping`, with the tree as values.
- `CustomLayouts`: the remapping dialog and the file-name cleaning.
- `GameList`: the game-list sort.
- `Presets`: the presets and the dropdown.
- `Mapper`: the state-changing `FightstickMapper` class.

The walk along the parent chain has no cycle guard in the source. In the
model it takes `fuel`, the number of stack frames it may use. Running out of
fuel is `Exhausted`, the source's `RecursionError`, and
`mame_control_to_port_data` turns that into `None`.

## Model

| member | source | states |
|---|---|---|
| Dicts.Put | FightStickMapper/fightstick_mapper.py:1490 | `d[key] = v`: `key` now holds `v`, every other key is unchanged, a present key keeps its place, a new one is appended, and keys stay distinct |
| Dicts.PutAllLastWrite | FightStickMapper/fightstick_mapper.py:353-362 | after a run of assignments each key holds its last assigned value; keys never assigned keep their old value |
| Text.Strip | FightStickMapper/fightstick_mapper.py:1428 | `str.strip()`: the result neither starts nor ends with whitespace, is never longer, and a string without whitespace is unchanged |
| Text.StripTrims | FightStickMapper/fightstick_mapper.py:1428 | `str.strip()` is the slice of the line between a leading whitespace run and a trailing whitespace run |
| Text.SplitFirst | FightStickMapper/fightstick_mapper.py:1436 | `split('=', 1)`: `None` exactly when there is no `=`; otherwise the line is the part before, `=` and the part after, and there is no `=` in the part before |
| Text.ReplaceAllAbsent | FightStickMapper/fightstick_mapper.py:2360-2366 | `str.replace` leaves a string in which the pattern does not occur unchanged |
| Text.LexLeTotal | FightStickMapper/fightstick_mapper.py:1682 | string comparison is total |
| Text.LexLeTransitive | FightStickMapper/fightstick_mapper.py:1682 | string comparison is transitive |
| GameData.CloneHolder | FightStickMapper/fightstick_mapper.py:2028-2032 | the first ROM in dictionary order whose `clones` lists the ROM, or none when no ROM lists it |
| GameData.FindParentRom | FightStickMapper/fightstick_mapper.py:2016-2050 | the parent by priority: own `parent`, else own `cloneof`, else the first ROM whose `clones` lists it, else the fixed table; `None` exactly when all four give nothing |
| GameData.Ancestors | FightStickMapper/fightstick_mapper.py:2075-2091 | the ROM followed by its ancestors along `find_parent_rom`, each the parent of the one before; a short chain ends at a ROM without a parent |
| GameData.FirstOwner | FightStickMapper/fightstick_mapper.py:2056-2085 | the first ROM on a chain that has its own entry for the control, or none when no ROM on it has one |
| GameData.LookupControlIsChainLookup | FightStickMapper/fightstick_mapper.py:2052-2097 | the recursive walk returns the entry of the first ROM on the ancestor chain that has the control; it is exhausted only when the frames run out first |
| GameData.LookupControlAcyclic | FightStickMapper/fightstick_mapper.py:2052-2097 | on a chain that ends before the frames run out the walk is never exhausted, and it finds an entry exactly when some ROM on the chain has one |
| GameData.LookupControlFound | FightStickMapper/fightstick_mapper.py:2064-2093 | a found entry is a `{tag, mask}` entry of the reported source ROM, and that ROM lies on the ancestor chain |
| GameData.LookupControlMoreFuel | FightStickMapper/fightstick_mapper.py:2089 | more stack frames do not change an answer that was reached |
| GameData.LookupControlSelfCycle | FightStickMapper/fightstick_mapper.py:2089 | a ROM that is its own parent and lacks the control exhausts any number of frames: the missing cycle guard |
| UserMappings.ParseLine | FightStickMapper/fightstick_mapper.py:1426-1453 | after stripping, a line is skipped exactly when it is empty or starts with `#`; it is a bad format exactly when it has no `=`; a mapping names one of `sf`, `mk`, `tekken`, `tekkent`, and its ROM is stripped and has no `=` |
| UserMappings.ParseLineSplitsAtFirstEquals | FightStickMapper/fightstick_mapper.py:1434-1439 | a line `a = b` with no `=` in `a` yields ROM `strip(a)` and type `strip(b)`, or a bad type when `strip(b)` is not valid |
| UserMappings.FindTemplate | FightStickMapper/fightstick_mapper.py:1464-1470 | the first ROM in dictionary order whose `mappings` holds the type and whose `controls` is non-empty, or none |
| UserMappings.AddRom | FightStickMapper/fightstick_mapper.py:1461-1490 | with no template (or a template named by the empty string) the database is unchanged; otherwise the ROM gets `mappings == [type]` and the template's non-empty controls, no other key changes, and a new ROM is appended |
| UserMappings.AddMapping | FightStickMapper/fightstick_mapper.py:1443-1449 | a missing `mappings` becomes `[]`; the type ends up present; the old list is a prefix and grows by one exactly when the type was absent; no other field changes |
| UserMappings.ApplyMapping | FightStickMapper/fightstick_mapper.py:1440-1449 | a valid line keeps the database's keys distinct |
| UserMappings.ApplyLine | FightStickMapper/fightstick_mapper.py:1426-1453 | a line that is not a valid mapping changes nothing; a valid one applies the mapping; the count grows by one exactly when the ROM was absent, whether or not a template was found |
| UserMappings.ApplyLines | FightStickMapper/fightstick_mapper.py:1422-1453 | the count never exceeds the number of lines, and keys stay distinct |
| UserMappings.ApplyMappingIdempotent | FightStickMapper/fightstick_mapper.py:1443-1449 | applying the same mapping twice leaves the database as applying it once |
| UserMappings.ApplyLineIdempotent | FightStickMapper/fightstick_mapper.py:1426-1453 | re-applying a line leaves the database as the first application left it |
| UserMappings.ApplyLineExistingRom | FightStickMapper/fightstick_mapper.py:1443-1449 | a ROM already present gains the type, keeps its old mappings as a prefix and its controls; no other ROM changes and the size stays the same |
| Mapper.FightstickMapper.constructor | FightStickMapper/fightstick_mapper.py:240-415 | after `__init__` (settings and layouts loaded, then the presets card built) the mapper holds the given database and custom layouts, the four built-in presets, and a dropdown offering `PresetOptions` with `PresetDescriptions` for those presets and layouts |
| Mapper.FightstickMapper.AddRomWithMapping | FightStickMapper/fightstick_mapper.py:1461-1490 | the template scan with `break` updates the database exactly as `AddRom`, and leaves the other fields alone |
| Mapper.FightstickMapper.ApplyUserLine | FightStickMapper/fightstick_mapper.py:1427-1453 | one pass of the loop body updates the database and the count exactly as `ApplyLine` |
| Mapper.FightstickMapper.LoadUserRomMappings | FightStickMapper/fightstick_mapper.py:1416-1459 | the loop over the lines leaves the database and `added_count` exactly as `ApplyLines` |
| Mapper.FightstickMapper.GetAllPresetOptions | FightStickMapper/fightstick_mapper.py:333-347 | the appending loops build exactly `PresetOptions` of the presets and custom layouts |
| Mapper.FightstickMapper.RefreshPresetDropdown | FightStickMapper/fightstick_mapper.py:709-739 | the dropdown's options and descriptions become `PresetOptions` and `PresetDescriptions`; the database and layouts are unchanged |
| Mapper.TemplateAt | FightStickMapper/fightstick_mapper.py:1466-1470 | the ROM at which the scan stops is the one `FindTemplate` names |
| ControlPorts.RewriteJoycodeUnchanged | FightStickMapper/fightstick_mapper.py:2360-2366 | a joycode with none of the rewritten axis names is unchanged, under either version and under both the written and the corrected rule order |
| ControlPorts.OldSlider2 | FightStickMapper/fightstick_mapper.py:2361-2363 | under `old`, `SLIDER2` followed by an inert tail becomes `ZAXIS` |
| ControlPorts.OldSlider1 | FightStickMapper/fightstick_mapper.py:2361-2363 | under `old`, `SLIDER1` followed by an inert tail becomes `ZAXIS_UP` |
| ControlPorts.NewZaxis | FightStickMapper/fightstick_mapper.py:2364-2366 | under the corrected `new`, `ZAXIS` followed by a tail without `Z` (not `_UP`) becomes `SLIDER2` |
| ControlPorts.NewZaxisUp | FightStickMapper/fightstick_mapper.py:2364-2366 | under the corrected `new`, `ZAXIS_UP` followed by a tail without `Z` becomes `SLIDER1` |
| ControlPorts.TriggerRoundTrip | FightStickMapper/fightstick_mapper.py:2360-2366 | both trigger axes come back unchanged from `old` and then the corrected `new` |
| ControlPorts.TriggerTailInert | FightStickMapper/fightstick_mapper.py:795-796 | the `_NEG_SWITCH` tail of the trigger joycodes meets none of the rewrite patterns |
| ControlPorts.AsWrittenNewZaxisUp | FightStickMapper/fightstick_mapper.py:2364-2366 | under `new` as written, `ZAXIS_UP` becomes `SLIDER2_UP`, because the `ZAXIS` rule runs first |
| ControlPorts.AsWrittenRoundTripFails | FightStickMapper/fightstick_mapper.py:2360-2366 | as written, a `SLIDER1` joycode does not come back from `old` to `new` |
| ControlPorts.AsWrittenNewZaxis | FightStickMapper/fightstick_mapper.py:2364-2366 | under `new` as written, `ZAXIS` followed by a tail without `Z` becomes `SLIDER2` |
| ControlPorts.AsWrittenRightTriggerRoundTrip | FightStickMapper/fightstick_mapper.py:2360-2366 | as written, a right-trigger `SLIDER2` joycode does come back from `old` to `new` |
| ControlPorts.LeftTriggerExample | FightStickMapper/fightstick_mapper.py:795 | `JOYCODE_1_SLIDER1_NEG_SWITCH` becomes `JOYCODE_1_ZAXIS_UP_NEG_SWITCH` under `old`, the corrected `new` turns it back, and `new` as written gives `JOYCODE_1_SLIDER2_UP_NEG_SWITCH` |
| ControlPorts.FallbackTagRule | FightStickMapper/fightstick_mapper.py:2317-2331 | the fallback tag is `:IN1` exactly for player controls naming buttons 1-3, `:IN2` for those naming 4-6 and not 1-3, `:EXTRA` for other player controls, and `:INPUTS` exactly for controls without a `P1_`/`P2_` prefix |
| ControlPorts.FallbackTagLowButton | FightStickMapper/fightstick_mapper.py:2318-2326 | a player control naming `BUTTON1`-`BUTTON3` gets `:IN1` whatever follows (so `P2_BUTTON10` joins them) |
| ControlPorts.FallbackTagHighButton | FightStickMapper/fightstick_mapper.py:2320-2328 | a player control naming `BUTTON4`-`BUTTON6` and no other `B` gets `:IN2` |
| ControlPorts.FallbackTagNoButton | FightStickMapper/fightstick_mapper.py:2322-2330 | a player control without a `B`, such as `P1_JOYSTICK_UP`, gets `:EXTRA` |
| ControlPorts.DefValue | FightStickMapper/fightstick_mapper.py:2371-2386 | `defvalue` is `"0"` exactly when the tag starts with one of the four special prefixes or the mask is `"0"`, and is the mask otherwise |
| ControlPorts.FirstWithControl | FightStickMapper/fightstick_mapper.py:2298-2311 | the first ROM in dictionary order with a `{tag, mask}` entry for the control, or none |
| ControlPorts.ControlToPortData | FightStickMapper/fightstick_mapper.py:2277-2402 | `None` exactly when the parent walk runs out of frames; otherwise type is the control, `newseq` is the rewritten joycode, and `defvalue` is `DefValue`; tag and mask come from the walk's entry, else the first ROM with the control, else the fallback tag and mask |
| ControlPorts.ControlToPortDataWithoutRom | FightStickMapper/fightstick_mapper.py:2286 | without a ROM name (`None` or empty) the conversion always succeeds, the same way for both |
| ControlPorts.ControlToPortDataOwnEntry | FightStickMapper/fightstick_mapper.py:2056-2064 | a ROM with its own entry takes tag and mask from it, whatever the rest of the database says |
| ControlPorts.ControlToPortDataAcyclic | FightStickMapper/fightstick_mapper.py:2286-2295 | a ROM whose chain ends before the frames run out always gets port data, from the chain when some ROM on it has the control |
| CfgMerge.FindPort | FightStickMapper/fightstick_mapper.py:2225 | the first port with the `(tag, type, mask)` key, or none |
| CfgMerge.FindStandard | FightStickMapper/fightstick_mapper.py:2229 | the first `newseq` of type `standard`, or none |
| CfgMerge.FormattedPort | FightStickMapper/fightstick_mapper.py:2406-2418 | the new port has the data's key, `defvalue` and one standard `newseq` with the joycode |
| CfgMerge.SetStandard | FightStickMapper/fightstick_mapper.py:2228-2239 | the port keeps its key, its standard text becomes the joycode and its `defvalue` is set; the existing `newseq` is replaced, or one is appended |
| CfgMerge.MergeEntry | FightStickMapper/fightstick_mapper.py:2225-2242 | an existing port is updated only with update-existing (a replaced `newseq` counts as modified, an added one as created); a missing port is appended only with create-missing (counted as created); otherwise nothing changes, and other ports are untouched |
| CfgMerge.MergeEntryIdempotent | FightStickMapper/fightstick_mapper.py:2225-2242 | merging the same port data twice leaves the ports as merging it once |
| CfgMerge.MergeEntryPreserves | FightStickMapper/fightstick_mapper.py:2225-2242 | merging data for one key keeps a port configured for another key configured |
| CfgMerge.MergeAllBounds | FightStickMapper/fightstick_mapper.py:2212-2246 | the counts grow by at most one per entry, the ports by at most one per entry, and existing ports keep their keys |
| CfgMerge.MergeAllReadOnly | FightStickMapper/fightstick_mapper.py:2212-2246 | with both switches off the merge changes nothing and counts nothing |
| CfgMerge.MergeAllUpdateOnly | FightStickMapper/fightstick_mapper.py:2242-2246 | without create-missing no port is added |
| CfgMerge.MergeAllUntouched | FightStickMapper/fightstick_mapper.py:2212-2246 | a port no entry addresses is left exactly as it was |
| CfgMerge.MergeAllLastWins | FightStickMapper/fightstick_mapper.py:2212-2246 | with both switches on, each entry that yields port data ends up configured unless a later entry addresses the same port |
| CfgMerge.MergeMappings | FightStickMapper/fightstick_mapper.py:2212-2246 | the loop, updating ports in place and counting, ends exactly in the state `MergeAll` describes |
| CfgMerge.FindSystem | FightStickMapper/fightstick_mapper.py:2199 | the first system named after the ROM, or none |
| CfgMerge.NewCfgStructure | FightStickMapper/fightstick_mapper.py:2461-2465 | a version-10 root with exactly one system, the ROM's, without an input |
| CfgMerge.WithSystem | FightStickMapper/fightstick_mapper.py:2199-2201 | the ROM's system is found, or appended at the end |
| CfgMerge.ConfigureTree | FightStickMapper/fightstick_mapper.py:2190-2266 | the version is kept (`"10"` for a new file); the ROM's system (the first with its name) holds the merged ports as its input; every other system, including a later one with the same name, is unchanged; the counts are the merge's |
| CfgMerge.ConfigureTreeReadOnly | FightStickMapper/fightstick_mapper.py:2212-2266 | with both switches off the ROM's input holds exactly its old ports and both counts are zero |
| CfgMerge.ConfigureTreeCounts | FightStickMapper/fightstick_mapper.py:2251-2266 | created plus modified never exceeds the number of mapping entries |
| CfgMerge.ConfigureGame | FightStickMapper/fightstick_mapper.py:2190-2266 | running the loop imperatively produces exactly `ConfigureTree` |
| CustomLayouts.FirstName | FightStickMapper/fightstick_mapper.py:882-890 | the name of the first button with the joycode, else the raw joycode |
| CustomLayouts.CurrentSelection | FightStickMapper/fightstick_mapper.py:882-890 | the scan with `break` returns exactly `FirstName` |
| CustomLayouts.InitialSelection | FightStickMapper/fightstick_mapper.py:785-890 | a dropdown starts at a button name paired with its joycode, or at the raw joycode when no button has it |
| CustomLayouts.AvailableNamesDistinct | FightStickMapper/fightstick_mapper.py:785-801 | the dialog's twelve button names are all different |
| CustomLayouts.NameToCodeFirstName | FightStickMapper/fightstick_mapper.py:984-988 | with distinct names, name-to-code undoes code-to-name for any joycode not spelled like a name |
| CustomLayouts.SelectionRoundTrip | FightStickMapper/fightstick_mapper.py:882-988 | a dropdown left at its initial selection maps back to its joycode |
| CustomLayouts.MirrorPlayerOne | FightStickMapper/fightstick_mapper.py:991 | a `P1_` control mirrors to a `P2_` control |
| CustomLayouts.MirrorCodePlayerOne | FightStickMapper/fightstick_mapper.py:994 | a first-joystick joycode mirrors to the same code on the second joystick |
| CustomLayouts.ApplyCustomMappings | FightStickMapper/fightstick_mapper.py:980-995 | the loop builds exactly `CustomMappings` of the selections |
| CustomLayouts.CustomMappingsKeys | FightStickMapper/fightstick_mapper.py:983-995 | `new_mappings` holds exactly the selected controls and those of their mirrors already in the mapping |
| CustomLayouts.CustomMappingsPlayerOne | FightStickMapper/fightstick_mapper.py:986-989 | with distinct `P1_` controls, each maps to the joycode of the button named in its dropdown |
| CustomLayouts.CustomMappingsMirror | FightStickMapper/fightstick_mapper.py:991-995 | each selected control whose `P2_` twin is in the mapping sets that twin to the same button on the second joystick |
| CustomLayouts.KeepFilenameChars | FightStickMapper/fightstick_mapper.py:1220 | keeps only letters, digits, space, `-` and `_`, is never longer, and keeps a name made only of those |
| CustomLayouts.KeepFilenameCharsAppend | FightStickMapper/fightstick_mapper.py:1220 | the filter works character by character: filtering `a + b` is filtering `a` followed by filtering `b` |
| CustomLayouts.KeepFilenameCharsOne | FightStickMapper/fightstick_mapper.py:1220 | one character is kept exactly when it is a letter, a digit, a space, `-` or `_` |
| CustomLayouts.SpacesToUnderscoresIsReplace | FightStickMapper/fightstick_mapper.py:1221 | the pointwise space-to-underscore map is the same as `str.replace(' ', '_')` |
| CustomLayouts.SafeFilenameKeeps | FightStickMapper/fightstick_mapper.py:1220-1221 | a kept character other than a space survives in its place: before it the filtered text with spaces as `_`, after it the cleaned rest of the name |
| CustomLayouts.SafeFilenameDropsTail | FightStickMapper/fightstick_mapper.py:1220-1221 | trailing spaces and dropped characters do not change the file name (`rstrip` after the filter) |
| CustomLayouts.SafeFilenameChars | FightStickMapper/fightstick_mapper.py:1220-1221 | a safe file name holds only letters, digits, `-` and `_`, and is no longer than the layout name |
| CustomLayouts.SafeFilenameUnchanged | FightStickMapper/fightstick_mapper.py:1220-1221 | a name of letters, digits, `-` and `_` is its own safe file name |
| CustomLayouts.SafeFilenameIdempotent | FightStickMapper/fightstick_mapper.py:1220-1221 | cleaning a cleaned name changes nothing |
| GameList.Insert | FightStickMapper/fightstick_mapper.py:1682 | inserting keeps every game and adds one |
| GameList.SortGames | FightStickMapper/fightstick_mapper.py:1682 | sorting keeps exactly the listed games |
| GameList.InsertSorted | FightStickMapper/fightstick_mapper.py:1682 | inserting into a sorted list keeps it sorted |
| GameList.SortGamesSorted | FightStickMapper/fightstick_mapper.py:1671-1682 | the result is ordered by the key and is a permutation of the list |
| GameList.ClonesAfterParents | FightStickMapper/fightstick_mapper.py:1674-1675 | every game after a clone is a clone: parents come first |
| GameList.GroupAlphabetical | FightStickMapper/fightstick_mapper.py:1677-1678 | within parents and within clones the lower-cased display names are in order |
| GameList.SortGamesSortedUnchanged | FightStickMapper/fightstick_mapper.py:1682 | a list already in order is returned unchanged |
| Presets.PresetOptions | FightStickMapper/fightstick_mapper.py:333-347 | "All Compatible Games", each preset's name in order, then the separator and each `Custom: name` label only when there are custom layouts |
| Presets.DescriptionWrites | FightStickMapper/fightstick_mapper.py:355-362 | the description assignments: each preset's name and description, then each custom label and its description |
| Presets.OptionsDescribed | FightStickMapper/fightstick_mapper.py:333-362 | every option except the separator has a description |
| Presets.PresetDescriptionShown | FightStickMapper/fightstick_mapper.py:355-357 | a preset's name shows its own description unless a later preset or a custom label takes the name |
| Presets.CustomDescriptionShown | FightStickMapper/fightstick_mapper.py:359-362 | a custom label shows the layout's description, or "Custom layout" when it has none, unless a later layout has the same name |
| Presets.SeparatorIffCustoms | FightStickMapper/fightstick_mapper.py:342-345 | the separator is offered exactly when there are custom layouts |
| Presets.MappingPresetsNamesApart | FightStickMapper/fightstick_mapper.py:253-321 | the four built-in presets have distinct names, none of them a custom label, the separator or "All Compatible Games" |
| Presets.BuiltinDescriptionsShown | FightStickMapper/fightstick_mapper.py:349-357 | "All Compatible Games" and every preset show their own descriptions |
| Presets.BuildPresetDescriptions | FightStickMapper/fightstick_mapper.py:728-739 | the loops assigning one description at a time build exactly `PresetDescriptions` |

## Left out

- The user interface: cards, dialogs, dropdown widgets, list boxes, message boxes and window placement. Dropdown selections enter the model as values.
- File I/O. This covers reading the user mappings file (the model takes its lines), settings, JSON database and layout files, backups, directory checks and the PyInstaller build script `FightStickMapper/package_with_pyinstaller.py`.
- Parsing a `.cfg` with `ET.parse` and writing it with `save_formatted_cfg`. The tree is a value, and an unreadable file is the same as a missing one.
- Timestamps, `print` output and the debug blocks of `configure_game_fightstick_mapping` (`debug_specific_roms`, the `sf2rb` block). On an acyclic database with well-formed records they only print. On a cyclic parent chain, a `clones` value that is not a dictionary or a `P1_BUTTON6` entry that is not a dictionary they can raise. The `sf2rb` block raises outside the `try`, and `debug_specific_roms` turns `sf2`, `sf2ce` and `sf2rb` into a failed result. These failures are not modelled.
- The result message and the `success: False` branch of `configure_game_fightstick_mapping`. The model returns the tree and the two counts. The only exception it models is the `RecursionError` of the parent walk, and `mame_control_to_port_data` turns that into `None`.
- The database records are taken as well-formed JSON: `mappings` is a list of strings when present, `parent` and `cloneof` are strings when present, and `controls` is a dictionary. A `null` or string `mappings` (a `TypeError` that ends the whole user-mapping file, or a substring test) and a `null` `parent` (which makes `find_parent_rom` stop without trying `cloneof`) are not modelled.
- CfgMerge.FindPort: the source's `.//port` and `.//system` searches look at all descendants. The model searches the ports of the one `input` element and the systems directly under the root.
- CfgMerge.ConfigureTree: the XML elements are values, so aliasing between elements is not modelled.
- ControlPorts.ControlToPortData: `mame_version` is one of the two radio values. Any other string, which the source would leave unrewritten, is not modelled.
- ControlPorts.ControlToPortData: masks are strings compared as the source compares them. Their numeric value is not modelled.
- GameData.LookupControl: the parent walk takes an explicit frame count (`fuel`) instead of Python's recursion limit.
- Text.Lower, Text.Upper and CustomLayouts.KeepFilenameChars: case mapping and `isalnum` are modelled for ASCII only. Python's Unicode tables are not modelled.
- GameList.SortGames: the stability of Python's `sorted` is not stated in general. It is shown only in that a sorted list comes back unchanged.
- The game list's display names (`get_display_name_for_rom`) and clone flags (`is_rom_clone`) enter as values.
- UserMappings.ApplyLines: re-applying a whole file is not idempotent in general, because a later line can add a template. Idempotence is proved per mapping and per line.

## Findings

| source | as written | input that shows it | evidently intended | confidence | as-written member | corrected member |
|---|---|---|---|---|---|---|
| FightStickMapper/fightstick_mapper.py:2364-2366 | under `new`, `ZAXIS` is replaced by `SLIDER2` before `ZAXIS_UP` is replaced by `SLIDER1`. The first rule consumes the front of every `ZAXIS_UP`, so the second rule never fires | `JOYCODE_1_ZAXIS_UP_NEG_SWITCH` becomes `JOYCODE_1_SLIDER2_UP_NEG_SWITCH` and not `JOYCODE_1_SLIDER1_NEG_SWITCH`, so a left trigger converted to `old` does not come back | the inverse of the `old` rules: `ZAXIS_UP` to `SLIDER1` first, then `ZAXIS` to `SLIDER2` | high (proved; not executed) | ControlPorts.AsWrittenNewZaxisUp, ControlPorts.AsWrittenRoundTripFails | ControlPorts.NewZaxisUp, ControlPorts.TriggerRoundTrip |

The as-written rewrite is `ControlPorts.RewriteJoycode`, and the
evidently intended one is `ControlPorts.CorrectedRewrite`. The port data
and the `.cfg` merge (`ControlPorts.ControlToPortData` and everything
built on it) carry the rewrite as written, so that the model writes the
joycode the program writes. The merge lemmas hold for any `newseq` text,
so they hold under either rewrite.

`ControlPorts.LeftTriggerExample` states the concrete input for both
rewrites.

`added_count` in `load_user_rom_mappings` grows for every valid line that
names a ROM missing from the database. It grows even when
`add_rom_with_mapping` finds no template and adds nothing.
`UserMappings.ApplyLine` states this behaviour as written. It looks
unintended, but it changes only a log message, so it is not listed as a
finding.
