/**
 * `mame_control_to_port_data`: the `port` attributes written into a game's
 * `.cfg` file for one control: tag and mask from the database (own ROM, then
 * parent chain, then any ROM), else from fixed fallback tables; the joycode
 * rewritten for the MAME version; and `defvalue`.
 */
module ControlPorts {
  import opened Wrappers
  import opened Text
  import opened GameData

  /** The two choices of the "MAME Version Compatibility" option. */
  datatype MameVersion = New | Old

  /** The attributes of one `port` element and the text of its standard `newseq`. */
  datatype PortData = PortData(tag: string, portType: string, mask: string, defvalue: string, newseq: string)

  /**
   * The version rewrite as the source writes it, which the port data carries.
   * For `New` it replaces `ZAXIS` before `ZAXIS_UP`, so no `ZAXIS_UP` is left
   * for the second rule.
   */
  function RewriteJoycode(version: MameVersion, joycode: string): string
  {
    match version
    case Old => ReplaceAll(ReplaceAll(joycode, "SLIDER2", "ZAXIS"), "SLIDER1", "ZAXIS_UP")
    case New => ReplaceAll(ReplaceAll(joycode, "ZAXIS", "SLIDER2"), "ZAXIS_UP", "SLIDER1")
  }

  /**
   * The rewrite the source evidently intends: as written for `Old`; for `New`
   * the inverse of the `Old` rules, `ZAXIS_UP` first and then `ZAXIS`.
   */
  function CorrectedRewrite(version: MameVersion, joycode: string): string
  {
    match version
    case Old => RewriteJoycode(Old, joycode)
    case New => ReplaceAll(ReplaceAll(joycode, "ZAXIS_UP", "SLIDER1"), "ZAXIS", "SLIDER2")
  }

  lemma {:induction false} ContainsLonger(s: string, p: string, q: string)
    requires Contains(s, p + q)
    ensures Contains(s, p)
    decreases |s|
  {
    if StartsWith(s, p + q) {
      assert s[..|p|] == (p + q)[..|p|] == p;
    } else {
      ContainsLonger(s[1..], p, q);
    }
  }

  /** A joycode naming none of the rewritten axes is left as it is, under either version and either ordering. */
  lemma RewriteJoycodeUnchanged(version: MameVersion, joycode: string)
    requires version == Old ==> !Contains(joycode, "SLIDER1") && !Contains(joycode, "SLIDER2")
    requires version == New ==> !Contains(joycode, "ZAXIS")
    ensures CorrectedRewrite(version, joycode) == joycode
    ensures RewriteJoycode(version, joycode) == joycode
  {
    match version
    case Old =>
      ReplaceAllAbsent(joycode, "SLIDER2", "ZAXIS");
      ReplaceAllAbsent(joycode, "SLIDER1", "ZAXIS_UP");
    case New =>
      if Contains(joycode, "ZAXIS_UP") {
        assert "ZAXIS" + "_UP" == "ZAXIS_UP";
        ContainsLonger(joycode, "ZAXIS", "_UP");
      }
      ReplaceAllAbsent(joycode, "ZAXIS", "SLIDER2");
      ReplaceAllAbsent(joycode, "ZAXIS_UP", "SLIDER1");
    }

  /** A joycode prefix that can interact with none of the rewrite rules. */
  predicate InertPrefix(a: string)
  {
    NoChar(a, 'S') && NoChar(a, 'Z')
  }

  /**
   * A joycode tail that can interact with none of the rewrite rules, neither
   * on its own nor joined to the axis name before it.
   */
  predicate InertTail(b: string)
  {
    && NoChar(b, 'Z') && !Contains(b, "SLIDER1") && !Contains(b, "SLIDER2")
    && (|b| > 0 ==> b[0] != 'L') && (|b| > 1 ==> b[1] != 'U')
  }

  /** The tail shared by the trigger joycodes of the button table. */
  const TriggerTail: string := "_NEG_SWITCH"

  lemma TriggerTailNoZ()
    ensures NoChar(TriggerTail, 'Z')
  {
    assert TriggerTail == "_NEG_" + "SWITCH";
    assert NoChar("_NEG_", 'Z') && NoChar("SWITCH", 'Z');
  }

  lemma TriggerTailNoSlider(p: string)
    requires p == "SLIDER1" || p == "SLIDER2"
    ensures !Contains(TriggerTail, p)
  {
    assert TriggerTail == "_NEG_" + "SWITCH";
    assert NoChar("_NEG_", 'S');
    ContainsSkip("_NEG_", "SWITCH", p);
    ContainsShort("SWITCH", p);
  }

  lemma TriggerTailInert()
    ensures InertTail(TriggerTail)
  {
    TriggerTailNoZ();
    TriggerTailNoSlider("SLIDER1");
    TriggerTailNoSlider("SLIDER2");
  }

  lemma NoZFixed(s: string, p: string, r: string)
    requires NoChar(s, 'Z') && |p| > 0 && p[0] == 'Z'
    ensures ReplaceAll(s, p, r) == s
  {
    ReplaceAllNoFirst(s, p, r);
  }

  /** The `SLIDER1` rule leaves `S` followed by an inert tail alone. */
  lemma STailFixedBySlider1(b: string, r: string)
    requires InertTail(b)
    ensures ReplaceAll([ 'S' ] + b, "SLIDER1", r) == [ 'S' ] + b
  {
    if |b| >= 6 {
      assert ([ 'S' ] + b)[..7][1] == b[0];
    }
    ReplaceAllMiss('S', b, "SLIDER1", r);
    ReplaceAllAbsent(b, "SLIDER1", r);
  }

  /** The `SLIDER2` rule leaves `SLIDER1` followed by an inert tail alone. */
  lemma Slider1TailFixedBySlider2(b: string, r: string)
    requires InertTail(b)
    ensures ReplaceAll("SLIDER1" + b, "SLIDER2", r) == "SLIDER1" + b
  {
    var x := "LIDER1" + b;
    assert "SLIDER1" + b == [ 'S' ] + x;
    assert ([ 'S' ] + x)[..7][6] == '1';
    ReplaceAllMiss('S', x, "SLIDER2", r);
    assert NoChar("LIDER1", 'S');
    ReplaceAllSkip("LIDER1", b, "SLIDER2", r);
    ReplaceAllAbsent(b, "SLIDER2", r);
  }

  /** The `SLIDER1` rule of `Old` on `ZAXIS` followed by an inert tail. */
  lemma Slider1RuleOnZaxis(a: string, b: string)
    requires InertPrefix(a) && InertTail(b)
    ensures ReplaceAll(a + "ZAXIS" + b, "SLIDER1", "ZAXIS_UP") == a + "ZAXIS" + b
  {
    var u := "ZAXI" + ([ 'S' ] + b);
    assert a + "ZAXIS" + b == a + u;
    ReplaceAllSkip(a, u, "SLIDER1", "ZAXIS_UP");
    assert NoChar("ZAXI", 'S');
    ReplaceAllSkip("ZAXI", [ 'S' ] + b, "SLIDER1", "ZAXIS_UP");
    STailFixedBySlider1(b, "ZAXIS_UP");
  }

  /** Under `Old`, `SLIDER2` followed by an inert tail becomes `ZAXIS`. */
  lemma OldSlider2(a: string, b: string)
    requires InertPrefix(a) && InertTail(b)
    ensures RewriteJoycode(Old, a + "SLIDER2" + b) == a + "ZAXIS" + b
  {
    ReplaceAllOnce(a, "SLIDER2", "ZAXIS", b);
    Slider1RuleOnZaxis(a, b);
  }

  /** The `SLIDER2` rule of `Old` on `SLIDER1` followed by an inert tail. */
  lemma Slider2RuleOnSlider1(a: string, b: string)
    requires InertPrefix(a) && InertTail(b)
    ensures ReplaceAll(a + "SLIDER1" + b, "SLIDER2", "ZAXIS") == a + "SLIDER1" + b
  {
    assert a + "SLIDER1" + b == a + ("SLIDER1" + b);
    ReplaceAllSkip(a, "SLIDER1" + b, "SLIDER2", "ZAXIS");
    Slider1TailFixedBySlider2(b, "ZAXIS");
  }

  /** Under `Old`, `SLIDER1` followed by an inert tail becomes `ZAXIS_UP`. */
  lemma OldSlider1(a: string, b: string)
    requires InertPrefix(a) && InertTail(b)
    ensures RewriteJoycode(Old, a + "SLIDER1" + b) == a + "ZAXIS_UP" + b
  {
    Slider2RuleOnSlider1(a, b);
    ReplaceAllOnce(a, "SLIDER1", "ZAXIS_UP", b);
  }

  lemma ZaxisTailFixedByZaxisUp(b: string, r: string)
    requires NoChar(b, 'Z') && (|b| > 1 ==> b[1] != 'U')
    ensures ReplaceAll("ZAXIS" + b, "ZAXIS_UP", r) == "ZAXIS" + b
  {
    var x := "AXIS" + b;
    assert "ZAXIS" + b == [ 'Z' ] + x;
    if |b| >= 3 {
      assert ([ 'Z' ] + x)[..8][6] == b[1];
    }
    ReplaceAllMiss('Z', x, "ZAXIS_UP", r);
    assert NoChar("AXIS", 'Z');
    NoZFixed(x, "ZAXIS_UP", r);
  }

  /** The `ZAXIS_UP` rule of the corrected `New` on `ZAXIS` followed by a tail without `Z` (and not `_UP`). */
  lemma ZaxisUpRuleOnZaxis(a: string, b: string)
    requires InertPrefix(a)
    requires NoChar(b, 'Z') && (|b| > 1 ==> b[1] != 'U')
    ensures ReplaceAll(a + "ZAXIS" + b, "ZAXIS_UP", "SLIDER1") == a + "ZAXIS" + b
  {
    assert a + "ZAXIS" + b == a + ("ZAXIS" + b);
    ReplaceAllSkip(a, "ZAXIS" + b, "ZAXIS_UP", "SLIDER1");
    ZaxisTailFixedByZaxisUp(b, "SLIDER1");
  }

  /** Under the corrected `New` rules, `ZAXIS` followed by a tail without `Z` (and not `_UP`) becomes `SLIDER2`. */
  lemma NewZaxis(a: string, b: string)
    requires InertPrefix(a)
    requires NoChar(b, 'Z') && (|b| > 1 ==> b[1] != 'U')
    ensures CorrectedRewrite(New, a + "ZAXIS" + b) == a + "SLIDER2" + b
  {
    ZaxisUpRuleOnZaxis(a, b);
    NoFirstCharNotContains(b, "ZAXIS");
    ReplaceAllOnce(a, "ZAXIS", "SLIDER2", b);
  }

  /** A joycode without `Z` is left alone by every rule that looks for `ZAXIS`. */
  lemma NoZJoinFixed(a: string, x: string, b: string, p: string, r: string)
    requires NoChar(a, 'Z') && NoChar(x, 'Z') && NoChar(b, 'Z')
    requires |p| > 0 && p[0] == 'Z'
    ensures ReplaceAll(a + x + b, p, r) == a + x + b
  {
    NoZFixed(a + x + b, p, r);
  }

  /** Under the corrected `New` rules, `ZAXIS_UP` followed by a tail without `Z` becomes `SLIDER1`. */
  lemma NewZaxisUp(a: string, b: string)
    requires InertPrefix(a)
    requires NoChar(b, 'Z')
    ensures CorrectedRewrite(New, a + "ZAXIS_UP" + b) == a + "SLIDER1" + b
  {
    NoFirstCharNotContains(b, "ZAXIS_UP");
    ReplaceAllOnce(a, "ZAXIS_UP", "SLIDER1", b);
    assert NoChar("SLIDER1", 'Z');
    NoZJoinFixed(a, "SLIDER1", b, "ZAXIS", "SLIDER2");
  }

  /**
   * The two trigger axes survive a trip through the `Old` rewrite and back
   * through the corrected `New` rewrite.
   */
  lemma TriggerRoundTrip(a: string, axis: string, b: string)
    requires InertPrefix(a) && InertTail(b)
    requires axis == "SLIDER1" || axis == "SLIDER2"
    ensures CorrectedRewrite(New, CorrectedRewrite(Old, a + axis + b)) == a + axis + b
  {
    if axis == "SLIDER1" {
      OldSlider1(a, b);
      NewZaxisUp(a, b);
    } else {
      OldSlider2(a, b);
      NewZaxis(a, b);
    }
  }

  /** The `ZAXIS` rule of `New`, applied first as written, eats the front of `ZAXIS_UP`. */
  lemma ZaxisRuleOnZaxisUp(a: string, b: string)
    requires InertPrefix(a)
    requires NoChar(b, 'Z')
    ensures ReplaceAll(a + "ZAXIS_UP" + b, "ZAXIS", "SLIDER2") == a + "SLIDER2_UP" + b
  {
    var u := "_UP" + b;
    assert NoChar("_UP", 'Z');
    assert a + "ZAXIS_UP" + b == a + ("ZAXIS" + u);
    ReplaceAllSkip(a, "ZAXIS" + u, "ZAXIS", "SLIDER2");
    ReplaceAllHit(u, "ZAXIS", "SLIDER2");
    NoZFixed(u, "ZAXIS", "SLIDER2");
    assert a + ("SLIDER2" + u) == a + "SLIDER2_UP" + b;
  }

  /**
   * The rewrite as written turns `ZAXIS_UP` into `SLIDER2_UP` under `New`:
   * the `ZAXIS` rule consumes the prefix first.
   */
  lemma AsWrittenNewZaxisUp(a: string, b: string)
    requires InertPrefix(a)
    requires NoChar(b, 'Z')
    ensures RewriteJoycode(New, a + "ZAXIS_UP" + b) == a + "SLIDER2_UP" + b
  {
    ZaxisRuleOnZaxisUp(a, b);
    assert NoChar("SLIDER2_UP", 'Z');
    NoZJoinFixed(a, "SLIDER2_UP", b, "ZAXIS_UP", "SLIDER1");
  }

  /**
   * With the rewrite as written, a left-trigger joycode does not come back
   * from `Old` to `New`: `SLIDER1` returns as `SLIDER2_UP`.
   */
  lemma AsWrittenRoundTripFails(a: string, b: string)
    requires InertPrefix(a) && InertTail(b)
    ensures RewriteJoycode(New, RewriteJoycode(Old, a + "SLIDER1" + b)) != a + "SLIDER1" + b
  {
    OldSlider1(a, b);
    AsWrittenNewZaxisUp(a, b);
    assert |a + "SLIDER2_UP" + b| != |a + "SLIDER1" + b|;
  }

  /** As written, `New` still turns `ZAXIS` followed by a tail without `Z` into `SLIDER2`. */
  lemma AsWrittenNewZaxis(a: string, b: string)
    requires InertPrefix(a)
    requires NoChar(b, 'Z')
    ensures RewriteJoycode(New, a + "ZAXIS" + b) == a + "SLIDER2" + b
  {
    NoFirstCharNotContains(b, "ZAXIS");
    ReplaceAllOnce(a, "ZAXIS", "SLIDER2", b);
    assert NoChar("SLIDER2", 'Z');
    NoZJoinFixed(a, "SLIDER2", b, "ZAXIS_UP", "SLIDER1");
  }

  /** As written, a right-trigger joycode (`SLIDER2`) does come back from `Old` to `New`. */
  lemma AsWrittenRightTriggerRoundTrip(a: string, b: string)
    requires InertPrefix(a) && InertTail(b)
    ensures RewriteJoycode(New, RewriteJoycode(Old, a + "SLIDER2" + b)) == a + "SLIDER2" + b
  {
    OldSlider2(a, b);
    AsWrittenNewZaxis(a, b);
  }

  /** The player-one prefix of the preset joycodes. */
  lemma PlayerOnePrefixInert()
    ensures InertPrefix("JOYCODE_1_")
  {
  }

  /**
   * The player-one left trigger of the remapping dialog, `JOYCODE_1_SLIDER1_NEG_SWITCH`:
   * `Old` turns it into `ZAXIS_UP`, the corrected `New` turns that back, and
   * `New` as written turns it into `SLIDER2_UP`.
   */
  lemma LeftTriggerExample()
    ensures RewriteJoycode(Old, "JOYCODE_1_" + "SLIDER1" + "_NEG_SWITCH") == "JOYCODE_1_" + "ZAXIS_UP" + "_NEG_SWITCH"
    ensures CorrectedRewrite(New, "JOYCODE_1_" + "ZAXIS_UP" + "_NEG_SWITCH") == "JOYCODE_1_" + "SLIDER1" + "_NEG_SWITCH"
    ensures RewriteJoycode(New, "JOYCODE_1_" + "ZAXIS_UP" + "_NEG_SWITCH") == "JOYCODE_1_" + "SLIDER2_UP" + "_NEG_SWITCH"
  {
    PlayerOnePrefixInert();
    TriggerTailInert();
    OldSlider1("JOYCODE_1_", TriggerTail);
    NewZaxisUp("JOYCODE_1_", TriggerTail);
    AsWrittenNewZaxisUp("JOYCODE_1_", TriggerTail);
  }

  /** `'BUTTON1' in c or 'BUTTON2' in c or 'BUTTON3' in c`. */
  predicate NamesLowButton(control: string)
  {
    Contains(control, "BUTTON1") || Contains(control, "BUTTON2") || Contains(control, "BUTTON3")
  }

  /** `'BUTTON4' in c or 'BUTTON5' in c or 'BUTTON6' in c`. */
  predicate NamesHighButton(control: string)
  {
    Contains(control, "BUTTON4") || Contains(control, "BUTTON5") || Contains(control, "BUTTON6")
  }

  /** The fallback tag, in the branch structure of the source. */
  function FallbackTag(control: string): string
  {
    if StartsWith(control, "P1_") then
      if NamesLowButton(control) then ":IN1"
      else if NamesHighButton(control) then ":IN2"
      else ":EXTRA"
    else if StartsWith(control, "P2_") then
      if NamesLowButton(control) then ":IN1"
      else if NamesHighButton(control) then ":IN2"
      else ":EXTRA"
    else ":INPUTS"
  }

  /**
   * The fallback tag depends on the player only through "is it P1 or P2": the
   * two player branches of the source are the same rule.
   */
  lemma FallbackTagRule(control: string)
    ensures var player := StartsWith(control, "P1_") || StartsWith(control, "P2_");
            var r := FallbackTag(control);
            (r == ":IN1" <==> player && NamesLowButton(control))
            && (r == ":IN2" <==> player && !NamesLowButton(control) && NamesHighButton(control))
            && (r == ":EXTRA" <==> player && !NamesLowButton(control) && !NamesHighButton(control))
            && (r == ":INPUTS" <==> !player)
  {
  }

  /** A player prefix starts the control it is put in front of, and the other prefix does not. */
  lemma PlayerPrefix(p: string, rest: string)
    requires p == "P1_" || p == "P2_"
    ensures StartsWith(p + rest, p)
    ensures p == "P2_" ==> !StartsWith(p + rest, "P1_")
  {
    assert (p + rest)[..3] == p;
  }

  /**
   * The button test is on substrings: a player control naming one of the
   * first three buttons is filed under `:IN1` whatever follows, so that
   * `P2_BUTTON10` joins the first three.
   */
  lemma FallbackTagLowButton(p: string, button: string, rest: string)
    requires p == "P1_" || p == "P2_"
    requires button == "BUTTON1" || button == "BUTTON2" || button == "BUTTON3"
    ensures FallbackTag(p + button + rest) == ":IN1"
  {
    assert p + button + rest == p + (button + rest);
    PlayerPrefix(p, button + rest);
    assert StartsWith(button + rest, button);
    ContainsAfter(p, button + rest, button);
  }

  /** A later button not named by the first three rules is not there. */
  lemma HighButtonNamesNoLow(button: string, rest: string, q: string)
    requires button == "BUTTON4" || button == "BUTTON5" || button == "BUTTON6"
    requires q == "BUTTON1" || q == "BUTTON2" || q == "BUTTON3"
    requires NoChar(rest, 'B')
    ensures !Contains(button + rest, q)
  {
    assert (button + rest)[..7][6] == button[6];
    assert (button + rest)[1..] == button[1..] + rest;
    assert NoChar(button[1..], 'B');
    ContainsSkip(button[1..], rest, q);
    NoFirstCharNotContains(rest, q);
  }

  /** A player control naming one of the buttons four to six, and no other `B`, is filed under `:IN2`. */
  lemma FallbackTagHighButton(p: string, button: string, rest: string)
    requires p == "P1_" || p == "P2_"
    requires button == "BUTTON4" || button == "BUTTON5" || button == "BUTTON6"
    requires NoChar(rest, 'B')
    ensures FallbackTag(p + button + rest) == ":IN2"
  {
    var t := button + rest;
    assert p + button + rest == p + t;
    PlayerPrefix(p, t);
    assert NoChar(p, 'B');
    HighButtonNamesNoLow(button, rest, "BUTTON1");
    HighButtonNamesNoLow(button, rest, "BUTTON2");
    HighButtonNamesNoLow(button, rest, "BUTTON3");
    ContainsSkip(p, t, "BUTTON1");
    ContainsSkip(p, t, "BUTTON2");
    ContainsSkip(p, t, "BUTTON3");
    assert StartsWith(t, button);
    ContainsAfter(p, t, button);
  }

  /** A player control that names no button, such as `P1_JOYSTICK_UP`, is filed under `:EXTRA`. */
  lemma FallbackTagNoButton(p: string, rest: string)
    requires p == "P1_" || p == "P2_"
    requires NoChar(rest, 'B')
    ensures FallbackTag(p + rest) == ":EXTRA"
  {
    var c := p + rest;
    PlayerPrefix(p, rest);
    assert NoChar(c, 'B');
    NoFirstCharNotContains(c, "BUTTON1");
    NoFirstCharNotContains(c, "BUTTON2");
    NoFirstCharNotContains(c, "BUTTON3");
    NoFirstCharNotContains(c, "BUTTON4");
    NoFirstCharNotContains(c, "BUTTON5");
    NoFirstCharNotContains(c, "BUTTON6");
  }

  /** The fallback masks: the button bits of the `sf2` input ports. */
  const ButtonMasks: map<string, string> := map[
    "P1_BUTTON1" := "16", "P1_BUTTON2" := "32", "P1_BUTTON3" := "64",
    "P1_BUTTON4" := "1", "P1_BUTTON5" := "2", "P1_BUTTON6" := "4",
    "P2_BUTTON1" := "4096", "P2_BUTTON2" := "8192", "P2_BUTTON3" := "16384",
    "P2_BUTTON4" := "16", "P2_BUTTON5" := "32", "P2_BUTTON6" := "64"]

  /** `button_masks.get(control, "1")`. */
  function FallbackMask(control: string): string
  {
    if control in ButtonMasks then ButtonMasks[control] else "1"
  }

  /** Tag prefixes whose ports get a default value of zero. */
  const SpecialZeroTags: seq<string> := [":JVS_", ":MAHJONG", ":HANAFUDA", ":KEYPAD"]

  predicate SpecialZeroTag(tag: string)
  {
    exists i | 0 <= i < |SpecialZeroTags| :: StartsWith(tag, SpecialZeroTags[i])
  }

  /** The `defvalue` attribute: the mask, or zero for the special tags and for a zero mask. */
  function DefValue(tag: string, mask: string): (r: string)
    ensures r == "0" <==> SpecialZeroTag(tag) || mask == "0"
    ensures r != "0" ==> r == mask
  {
    var d := if SpecialZeroTag(tag) then "0" else mask;
    if mask == "0" then "0" else d
  }

  /** Index of the first ROM, in dictionary order, with a valid entry for `control`. */
  function FirstWithControl(db: Db, control: string): (r: Option<nat>)
    ensures r.Some? ==> r.value < |db| && RecordControl(db[r.value].1, control).Some?
    ensures r.Some? ==> forall j | 0 <= j < r.value :: RecordControl(db[j].1, control).None?
    ensures r.None? ==> forall j | 0 <= j < |db| :: RecordControl(db[j].1, control).None?
    decreases |db|
  {
    if |db| == 0 then None
    else if RecordControl(db[0].1, control).Some? then Some(0)
    else match FirstWithControl(db[1..], control)
         case None => None
         case Some(i) => Some(i + 1)
  }

  /** Python truthiness of the optional `rom_name` argument. */
  predicate Truthy(romName: Option<string>)
  {
    romName.Some? && romName.value != ""
  }

  /** The parent walk for `rom_name`, when one is given. */
  function RomLookup(db: Db, control: string, romName: Option<string>, fuel: nat): LookupResult
  {
    if Truthy(romName) then LookupControl(db, romName.value, control, fuel) else Missing
  }

  /**
   * `mame_control_to_port_data`, with the version rewrite as written. `None` is the
   * source's `except` path, which a walk that runs out of stack frames reaches.
   */
  function ControlToPortData(db: Db, control: string, joycode: string, version: MameVersion,
                             romName: Option<string>, fuel: nat): (r: Option<PortData>)
    ensures r.None? <==> RomLookup(db, control, romName, fuel).Exhausted?
    ensures r.Some? ==> r.value.portType == control && r.value.newseq == RewriteJoycode(version, joycode)
    ensures r.Some? ==> r.value.defvalue == DefValue(r.value.tag, r.value.mask)
    ensures RomLookup(db, control, romName, fuel).Found? ==>
              var e := RomLookup(db, control, romName, fuel).entry;
              r.Some? && e.PortRef? && r.value.tag == e.tag && r.value.mask == e.mask
    ensures RomLookup(db, control, romName, fuel).Missing? && FirstWithControl(db, control).Some? ==>
              var e := db[FirstWithControl(db, control).value].1.controls[control];
              r.Some? && r.value.tag == e.tag && r.value.mask == e.mask
    ensures RomLookup(db, control, romName, fuel).Missing? && FirstWithControl(db, control).None? ==>
              r.Some? && r.value.tag == FallbackTag(control) && r.value.mask == FallbackMask(control)
  {
    var joy := RewriteJoycode(version, joycode);
    match RomLookup(db, control, romName, fuel)
    case Exhausted => None
    case Found(e, _) =>
      LookupControlFound(db, romName.value, control, fuel);
      var (tag, mask) := if e.PortRef? then (e.tag, e.mask) else (FallbackTag(control), FallbackMask(control));
      Some(PortData(tag, control, mask, DefValue(tag, mask), joy))
    case Missing =>
      var (tag, mask) :=
        match FirstWithControl(db, control)
        case Some(i) => (db[i].1.controls[control].tag, db[i].1.controls[control].mask)
        case None => (FallbackTag(control), FallbackMask(control));
      Some(PortData(tag, control, mask, DefValue(tag, mask), joy))
  }

  /** Without a ROM name the conversion cannot fail. */
  lemma ControlToPortDataWithoutRom(db: Db, control: string, joycode: string, version: MameVersion, fuel: nat)
    ensures ControlToPortData(db, control, joycode, version, None, fuel).Some?
    ensures ControlToPortData(db, control, joycode, version, Some(""), fuel)
            == ControlToPortData(db, control, joycode, version, None, fuel)
  {
  }

  /**
   * A ROM with its own valid entry takes its tag and mask from that entry,
   * whatever the rest of the database says.
   */
  lemma ControlToPortDataOwnEntry(db: Db, rom: string, control: string, joycode: string, version: MameVersion, fuel: nat)
    requires rom != "" && fuel >= 1
    requires OwnControl(db, rom, control).Some?
    ensures var r := ControlToPortData(db, control, joycode, version, Some(rom), fuel);
            r.Some? && r.value.tag == OwnControl(db, rom, control).value.tag
            && r.value.mask == OwnControl(db, rom, control).value.mask
  {
  }

  /**
   * A clone whose parent chain ends before the frames run out always gets port
   * data; its tag and mask come from the chain when some ROM on it has the control.
   */
  lemma ControlToPortDataAcyclic(db: Db, rom: string, control: string, joycode: string, version: MameVersion, fuel: nat)
    requires rom != "" && fuel >= 1 && |Ancestors(db, rom, fuel)| <= fuel
    ensures ControlToPortData(db, control, joycode, version, Some(rom), fuel).Some?
    ensures (exists i | 0 <= i < |Ancestors(db, rom, fuel)| :: OwnControl(db, Ancestors(db, rom, fuel)[i], control).Some?)
            ==> RomLookup(db, control, Some(rom), fuel).Found?
  {
    LookupControlAcyclic(db, rom, control, fuel);
  }
}
