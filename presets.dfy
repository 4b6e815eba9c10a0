/**
 * The built-in button-mapping presets and the preset dropdown: its options
 * (`get_all_preset_options`, `refresh_preset_dropdown`) and the description
 * shown for each option (`preset_descriptions`).
 */
module Presets {
  import opened Wrappers
  import opened Dicts

  /** One entry of `mapping_presets`: a display name, a description and control-to-joycode mappings. */
  datatype Preset = Preset(name: string, description: string, mappings: Dict<string>)

  /** One saved custom layout; `description` is `None` when the layout has no such key. */
  datatype CustomLayout = CustomLayout(name: string, description: Option<string>, basePreset: string, mappings: Dict<string>)

  const AllGames := "All Compatible Games"
  const AllGamesDescription := "Automatically apply the best mapping to ALL compatible fighting games based on their type"
  const Separator := "--- Custom Layouts ---"
  const CustomPrefix := "Custom: "
  const DefaultCustomDescription := "Custom layout"

  /** The "6button" preset: standard six-button fighting games. */
  const SixButton := Preset("6-Button Fighting Games (SF/KI/etc)",
    "Standard 6-button layout: LP(X), MP(Y), HP(RB), LK(A), MK(B), HK(RT)",
    [("P1_BUTTON1", "JOYCODE_1_BUTTON3"), ("P1_BUTTON2", "JOYCODE_1_BUTTON4"),
     ("P1_BUTTON3", "JOYCODE_1_BUTTON6"), ("P1_BUTTON4", "JOYCODE_1_BUTTON1"),
     ("P1_BUTTON5", "JOYCODE_1_BUTTON2"), ("P1_BUTTON6", "JOYCODE_1_SLIDER2_NEG_SWITCH"),
     ("P2_BUTTON1", "JOYCODE_2_BUTTON3"), ("P2_BUTTON2", "JOYCODE_2_BUTTON4"),
     ("P2_BUTTON3", "JOYCODE_2_BUTTON6"), ("P2_BUTTON4", "JOYCODE_2_BUTTON1"),
     ("P2_BUTTON5", "JOYCODE_2_BUTTON2"), ("P2_BUTTON6", "JOYCODE_2_SLIDER2_NEG_SWITCH")])

  /** The "mk" preset. */
  const MortalKombat := Preset("Mortal Kombat Layout",
    "6-button MK layout: HP(RB), LP(X), BL(Y), RN(B), HK(RT), LK(A)",
    [("P1_BUTTON1", "JOYCODE_1_BUTTON6"), ("P1_BUTTON2", "JOYCODE_1_BUTTON4"),
     ("P1_BUTTON3", "JOYCODE_1_SLIDER2_NEG_SWITCH"), ("P1_BUTTON4", "JOYCODE_1_BUTTON3"),
     ("P1_BUTTON5", "JOYCODE_1_BUTTON1"), ("P1_BUTTON6", "JOYCODE_1_BUTTON2"),
     ("P2_BUTTON1", "JOYCODE_2_BUTTON6"), ("P2_BUTTON2", "JOYCODE_2_BUTTON4"),
     ("P2_BUTTON3", "JOYCODE_2_SLIDER2_NEG_SWITCH"), ("P2_BUTTON4", "JOYCODE_2_BUTTON3"),
     ("P2_BUTTON5", "JOYCODE_2_BUTTON1"), ("P2_BUTTON6", "JOYCODE_2_BUTTON2")])

  /** The "tekken" preset. */
  const Tekken := Preset("Tekken Layout",
    "4-button Tekken layout: LP(X), RP(Y), LK(A), RK(B)",
    [("P1_BUTTON1", "JOYCODE_1_BUTTON3"), ("P1_BUTTON2", "JOYCODE_1_BUTTON4"),
     ("P1_BUTTON3", "JOYCODE_1_BUTTON1"), ("P1_BUTTON4", "JOYCODE_1_BUTTON2"),
     ("P2_BUTTON1", "JOYCODE_2_BUTTON3"), ("P2_BUTTON2", "JOYCODE_2_BUTTON4"),
     ("P2_BUTTON3", "JOYCODE_2_BUTTON1"), ("P2_BUTTON4", "JOYCODE_2_BUTTON2")])

  /** The "tekkent" preset. */
  const TekkenTag := Preset("Tekken Tag Layout",
    "5-button Tekken Tag layout: LP(X), RP(Y), LK(RB), RK(A), Tag(B)",
    [("P1_BUTTON1", "JOYCODE_1_BUTTON3"), ("P1_BUTTON2", "JOYCODE_1_BUTTON4"),
     ("P1_BUTTON3", "JOYCODE_1_BUTTON6"), ("P1_BUTTON4", "JOYCODE_1_BUTTON1"),
     ("P1_BUTTON5", "JOYCODE_1_BUTTON2"),
     ("P2_BUTTON1", "JOYCODE_2_BUTTON3"), ("P2_BUTTON2", "JOYCODE_2_BUTTON4"),
     ("P2_BUTTON3", "JOYCODE_2_BUTTON6"), ("P2_BUTTON4", "JOYCODE_2_BUTTON1"),
     ("P2_BUTTON5", "JOYCODE_2_BUTTON2")])

  /** `mapping_presets`, keyed by preset id, in definition order. */
  const MappingPresets: Dict<Preset> :=
    [("6button", SixButton), ("mk", MortalKombat), ("tekken", Tekken), ("tekkent", TekkenTag)]

  /** The dropdown label of a custom layout. */
  function CustomDisplayName(layout: CustomLayout): string
  {
    CustomPrefix + layout.name
  }

  /** `layout_data.get('description', 'Custom layout')`. */
  function CustomDescription(layout: CustomLayout): string
  {
    if layout.description.Some? then layout.description.value else DefaultCustomDescription
  }

  /**
   * The dropdown options: "All Compatible Games", every preset's name in
   * order, then, only when there are custom layouts, the separator followed
   * by every custom layout's label in order.
   */
  function PresetOptions(presets: Dict<Preset>, customs: Dict<CustomLayout>): (r: seq<string>)
    ensures |r| == 1 + |presets| + (if |customs| > 0 then 1 + |customs| else 0)
    ensures r[0] == AllGames
    ensures forall i | 0 <= i < |presets| :: r[1 + i] == presets[i].1.name
    ensures |customs| > 0 ==> r[1 + |presets|] == Separator
    ensures forall j | 0 <= j < |customs| :: r[2 + |presets| + j] == CustomDisplayName(customs[j].1)
  {
    [AllGames] + seq(|presets|, i requires 0 <= i < |presets| => presets[i].1.name)
    + (if |customs| > 0 then [Separator] + seq(|customs|, j requires 0 <= j < |customs| => CustomDisplayName(customs[j].1))
       else [])
  }

  /** A list with the options at their places is the option list. */
  lemma PresetOptionsByIndex(presets: Dict<Preset>, customs: Dict<CustomLayout>, options: seq<string>)
    requires |options| == 1 + |presets| + (if |customs| > 0 then 1 + |customs| else 0)
    requires options[0] == AllGames
    requires forall i | 0 <= i < |presets| :: options[1 + i] == presets[i].1.name
    requires |customs| > 0 ==> options[1 + |presets|] == Separator
    requires forall j | 0 <= j < |customs| :: options[2 + |presets| + j] == CustomDisplayName(customs[j].1)
    ensures options == PresetOptions(presets, customs)
  {
    var r := PresetOptions(presets, customs);
    forall k | 0 <= k < |r| ensures options[k] == r[k] {
      if 1 <= k <= |presets| {
        assert options[1 + (k - 1)] == r[1 + (k - 1)];
      } else if k >= 2 + |presets| {
        assert options[2 + |presets| + (k - 2 - |presets|)] == r[2 + |presets| + (k - 2 - |presets|)];
      }
    }
  }

  /** The description assignments of the presets, in order. */
  function PresetWrites(presets: Dict<Preset>): (r: seq<(string, string)>)
    ensures |r| == |presets|
    ensures forall i | 0 <= i < |presets| :: r[i] == (presets[i].1.name, presets[i].1.description)
  {
    seq(|presets|, i requires 0 <= i < |presets| => (presets[i].1.name, presets[i].1.description))
  }

  /** The description assignments of the custom layouts, in order. */
  function CustomWrites(customs: Dict<CustomLayout>): (r: seq<(string, string)>)
    ensures |r| == |customs|
    ensures forall j | 0 <= j < |customs| :: r[j] == (CustomDisplayName(customs[j].1), CustomDescription(customs[j].1))
  {
    seq(|customs|, j requires 0 <= j < |customs| => (CustomDisplayName(customs[j].1), CustomDescription(customs[j].1)))
  }

  /** The description assignments, in the order the source makes them (presets, then custom layouts). */
  function DescriptionWrites(presets: Dict<Preset>, customs: Dict<CustomLayout>): (r: seq<(string, string)>)
    ensures |r| == |presets| + |customs|
    ensures forall i | 0 <= i < |presets| :: r[i] == (presets[i].1.name, presets[i].1.description)
    ensures forall j | 0 <= j < |customs| :: r[|presets| + j] == (CustomDisplayName(customs[j].1), CustomDescription(customs[j].1))
  {
    seq(|presets|, i requires 0 <= i < |presets| => (presets[i].1.name, presets[i].1.description))
    + seq(|customs|, j requires 0 <= j < |customs| => (CustomDisplayName(customs[j].1), CustomDescription(customs[j].1)))
  }

  lemma DescriptionWritesSplit(presets: Dict<Preset>, customs: Dict<CustomLayout>)
    ensures DescriptionWrites(presets, customs) == PresetWrites(presets) + CustomWrites(customs)
  {
  }

  /** `preset_descriptions`: starts with the "All Compatible Games" entry, then the assignments above. */
  function PresetDescriptions(presets: Dict<Preset>, customs: Dict<CustomLayout>): Dict<string>
  {
    PutAll([(AllGames, AllGamesDescription)], DescriptionWrites(presets, customs))
  }

  /** A write at position `i` with no later write to the same key is the last write. */
  lemma {:induction false} LastWriteAt(ws: seq<(string, string)>, i: nat)
    requires i < |ws| && forall k | i < k < |ws| :: ws[k].0 != ws[i].0
    ensures LastWrite(ws, ws[i].0) == Some(ws[i].1)
    decreases |ws|
  {
    if i < |ws| - 1 {
      var front := ws[..|ws| - 1];
      assert front[i] == ws[i];
      assert forall k | i < k < |front| :: front[k] == ws[k];
      LastWriteAt(front, i);
    }
  }

  lemma AllGamesDescribed(presets: Dict<Preset>, customs: Dict<CustomLayout>)
    ensures HasKey(PresetDescriptions(presets, customs), AllGames)
  {
    var initial := [(AllGames, AllGamesDescription)];
    assert initial[0].0 == AllGames;
    PutAllKeepsKey(initial, DescriptionWrites(presets, customs), AllGames);
  }

  lemma PresetNameDescribed(presets: Dict<Preset>, customs: Dict<CustomLayout>, i: nat)
    requires i < |presets|
    ensures HasKey(PresetDescriptions(presets, customs), presets[i].1.name)
  {
    var ws := DescriptionWrites(presets, customs);
    assert ws[i].0 == presets[i].1.name;
    PutAllHasWritten([(AllGames, AllGamesDescription)], ws, i);
  }

  lemma CustomNameDescribed(presets: Dict<Preset>, customs: Dict<CustomLayout>, j: nat)
    requires j < |customs|
    ensures HasKey(PresetDescriptions(presets, customs), CustomDisplayName(customs[j].1))
  {
    var ws := DescriptionWrites(presets, customs);
    assert ws[|presets| + j].0 == CustomDisplayName(customs[j].1);
    PutAllHasWritten([(AllGames, AllGamesDescription)], ws, |presets| + j);
  }

  /** Every option except the separator has a description. */
  lemma OptionsDescribed(presets: Dict<Preset>, customs: Dict<CustomLayout>, k: nat)
    requires k < |PresetOptions(presets, customs)| && PresetOptions(presets, customs)[k] != Separator
    ensures HasKey(PresetDescriptions(presets, customs), PresetOptions(presets, customs)[k])
  {
    var opts := PresetOptions(presets, customs);
    if k == 0 {
      AllGamesDescribed(presets, customs);
    } else if k <= |presets| {
      var i := k - 1;
      assert opts[1 + i] == presets[i].1.name;
      PresetNameDescribed(presets, customs, i);
    } else {
      var j := k - 2 - |presets|;
      assert opts[2 + |presets| + j] == CustomDisplayName(customs[j].1);
      CustomNameDescribed(presets, customs, j);
    }
  }

  /** A preset's name shows its own description unless a later preset or a custom label takes the name. */
  lemma PresetDescriptionShown(presets: Dict<Preset>, customs: Dict<CustomLayout>, i: nat)
    requires i < |presets|
    requires forall k | i < k < |presets| :: presets[k].1.name != presets[i].1.name
    requires forall j | 0 <= j < |customs| :: CustomDisplayName(customs[j].1) != presets[i].1.name
    ensures Get(PresetDescriptions(presets, customs), presets[i].1.name) == Some(presets[i].1.description)
  {
    var ws := DescriptionWrites(presets, customs);
    assert forall k | i < k < |ws| :: ws[k].0 != ws[i].0 by {
      forall k | i < k < |ws| ensures ws[k].0 != ws[i].0 {
        if k >= |presets| { assert ws[|presets| + (k - |presets|)] == ws[k]; }
      }
    }
    LastWriteAt(ws, i);
    PutAllLastWrite([(AllGames, AllGamesDescription)], ws, presets[i].1.name);
  }

  lemma CustomDisplayNameInjective(a: CustomLayout, b: CustomLayout)
    ensures CustomDisplayName(a) == CustomDisplayName(b) ==> a.name == b.name
  {
    if CustomDisplayName(a) == CustomDisplayName(b) {
      assert a.name == CustomDisplayName(a)[|CustomPrefix|..];
      assert b.name == CustomDisplayName(b)[|CustomPrefix|..];
    }
  }

  /** A custom layout's label shows its description, or "Custom layout" when it has none, unless a later layout has the same name. */
  lemma CustomDescriptionShown(presets: Dict<Preset>, customs: Dict<CustomLayout>, j: nat)
    requires j < |customs|
    requires forall k | j < k < |customs| :: customs[k].1.name != customs[j].1.name
    ensures var shown := Get(PresetDescriptions(presets, customs), CustomDisplayName(customs[j].1));
            && (customs[j].1.description.Some? ==> shown == customs[j].1.description)
            && (customs[j].1.description.None? ==> shown == Some(DefaultCustomDescription))
  {
    var pw, cw := PresetWrites(presets), CustomWrites(customs);
    var key := CustomDisplayName(customs[j].1);
    assert forall k | j < k < |cw| :: cw[k].0 != cw[j].0 by {
      forall k | j < k < |cw| ensures cw[k].0 != cw[j].0 {
        CustomDisplayNameInjective(customs[k].1, customs[j].1);
      }
    }
    LastWriteAt(cw, j);
    LastWriteConcat(pw, cw, key);
    DescriptionWritesSplit(presets, customs);
    PutAllLastWrite([(AllGames, AllGamesDescription)], pw + cw, key);
  }

  /** No preset name is a custom label, the separator or "All Compatible Games", and no two presets share a name. */
  predicate NamesApart(presets: Dict<Preset>)
  {
    && (forall i | 0 <= i < |presets| :: |presets[i].1.name| > 0 && presets[i].1.name[0] !in "C-A")
    && (forall i, k | 0 <= i < k < |presets| :: presets[i].1.name != presets[k].1.name)
  }

  lemma MappingPresetsNamesApart()
    ensures NamesApart(MappingPresets)
  {
    assert SixButton.name[0] == '6' && MortalKombat.name[0] == 'M';
    assert Tekken.name[0] == 'T' && TekkenTag.name[0] == 'T' && Tekken.name[7] != TekkenTag.name[7];
  }

  /** The separator is offered exactly when there is at least one custom layout. */
  lemma SeparatorIffCustoms(presets: Dict<Preset>, customs: Dict<CustomLayout>)
    requires NamesApart(presets)
    ensures Separator in PresetOptions(presets, customs) <==> |customs| > 0
  {
    var opts := PresetOptions(presets, customs);
    if |customs| == 0 {
      forall k | 0 <= k < |opts| ensures opts[k] != Separator {
        if k > 0 { assert opts[k][0] == presets[k - 1].1.name[0]; }
      }
    }
    if |customs| > 0 {
      assert opts[1 + |presets|] == Separator;
    }
  }

  /** With well-apart preset names, "All Compatible Games" and every preset show their own descriptions. */
  lemma BuiltinDescriptionsShown(presets: Dict<Preset>, customs: Dict<CustomLayout>)
    requires NamesApart(presets)
    ensures Get(PresetDescriptions(presets, customs), AllGames) == Some(AllGamesDescription)
    ensures forall i | 0 <= i < |presets| ::
              Get(PresetDescriptions(presets, customs), presets[i].1.name) == Some(presets[i].1.description)
  {
    var ws := DescriptionWrites(presets, customs);
    forall j | 0 <= j < |customs|
      ensures CustomDisplayName(customs[j].1)[0] == 'C'
    {
    }
    assert LastWrite(ws, AllGames).None? by {
      forall k | 0 <= k < |ws| ensures ws[k].0 != AllGames {
        if k < |presets| { assert ws[k].0[0] != AllGames[0]; }
        else { assert ws[|presets| + (k - |presets|)] == ws[k]; assert ws[k].0[0] == 'C'; }
      }
    }
    PutAllLastWrite([(AllGames, AllGamesDescription)], ws, AllGames);
    forall i | 0 <= i < |presets|
      ensures Get(PresetDescriptions(presets, customs), presets[i].1.name) == Some(presets[i].1.description)
    {
      forall j | 0 <= j < |customs| ensures CustomDisplayName(customs[j].1) != presets[i].1.name {
        assert CustomDisplayName(customs[j].1)[0] == 'C';
      }
      PresetDescriptionShown(presets, customs, i);
    }
  }

  /** The description dictionary built the way `refresh_preset_dropdown` builds it: one assignment at a time. */
  method BuildPresetDescriptions(presets: Dict<Preset>, customs: Dict<CustomLayout>) returns (descriptions: Dict<string>)
    ensures descriptions == PresetDescriptions(presets, customs)
  {
    var pw, cw := PresetWrites(presets), CustomWrites(customs);
    var initial := [(AllGames, AllGamesDescription)];
    descriptions := initial;
    var i := 0;
    while i < |presets|
      invariant 0 <= i <= |presets|
      invariant descriptions == PutAll(initial, pw[..i])
    {
      PutAllSnoc(initial, pw, i);
      descriptions := Put(descriptions, presets[i].1.name, presets[i].1.description);
      i := i + 1;
    }
    assert pw[..i] == pw;
    var j := 0;
    while j < |customs|
      invariant 0 <= j <= |customs|
      invariant descriptions == PutAll(PutAll(initial, pw), cw[..j])
    {
      var layout := customs[j].1;
      PutAllSnoc(PutAll(initial, pw), cw, j);
      descriptions := Put(descriptions, CustomDisplayName(layout), CustomDescription(layout));
      j := j + 1;
    }
    assert cw[..j] == cw;
    PutAllConcat(initial, pw, cw);
    DescriptionWritesSplit(presets, customs);
  }
}
