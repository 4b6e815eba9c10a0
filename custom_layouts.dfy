/**
 * The button-remapping dialog's data logic (`apply_custom_mappings` and the
 * initial selections it starts from) and the file-name cleaning of
 * `save_custom_layout`.
 */
module CustomLayouts {
  import opened Wrappers
  import opened Dicts
  import opened Text

  /** The physical buttons the dialog offers, as `(joycode, name)` pairs in display order. */
  const AvailableButtons: seq<(string, string)> := [
    ("JOYCODE_1_BUTTON1", "Button 1 (A)"),
    ("JOYCODE_1_BUTTON2", "Button 2 (B)"),
    ("JOYCODE_1_BUTTON3", "Button 3 (X)"),
    ("JOYCODE_1_BUTTON4", "Button 4 (Y)"),
    ("JOYCODE_1_BUTTON5", "Button 5 (LB)"),
    ("JOYCODE_1_BUTTON6", "Button 6 (RB)"),
    ("JOYCODE_1_SLIDER1_NEG_SWITCH", "Trigger 1 (LT)"),
    ("JOYCODE_1_SLIDER2_NEG_SWITCH", "Trigger 2 (RT)"),
    ("JOYCODE_1_BUTTON7", "Button 7 (Back)"),
    ("JOYCODE_1_BUTTON8", "Button 8 (Start)"),
    ("JOYCODE_1_BUTTON9", "Button 9 (LS)"),
    ("JOYCODE_1_BUTTON10", "Button 10 (RS)")]

  /** `{name: code for code, name in buttons}.get(name, name)`: later entries win. */
  function NameToCode(buttons: seq<(string, string)>, name: string): string
  {
    var byName := seq(|buttons|, i requires 0 <= i < |buttons| => (buttons[i].1, buttons[i].0));
    match LastWrite(byName, name)
    case Some(code) => code
    case None => name
  }

  /** The dialog's `button_name_to_code` lookup. */
  function CodeForName(name: string): string
  {
    NameToCode(AvailableButtons, name)
  }

  /** The selection a dropdown starts at: the name of the first button with that joycode, else the raw joycode. */
  function InitialSelection(joycode: string): (r: string)
    ensures (exists i | 0 <= i < |AvailableButtons| :: AvailableButtons[i].0 == joycode) ==>
              exists i | 0 <= i < |AvailableButtons| :: AvailableButtons[i] == (joycode, r)
    ensures (forall i | 0 <= i < |AvailableButtons| :: AvailableButtons[i].0 != joycode) ==> r == joycode
  {
    FirstName(AvailableButtons, joycode)
  }

  function FirstName(buttons: seq<(string, string)>, joycode: string): (r: string)
    ensures (exists i | 0 <= i < |buttons| :: buttons[i].0 == joycode) ==>
              exists i | 0 <= i < |buttons| :: buttons[i] == (joycode, r)
    ensures (forall i | 0 <= i < |buttons| :: buttons[i].0 != joycode) ==> r == joycode
    decreases |buttons|
  {
    if |buttons| == 0 then joycode
    else if buttons[0].0 == joycode then buttons[0].1
    else
      var r := FirstName(buttons[1..], joycode);
      assert forall i | 1 <= i < |buttons| :: buttons[i] == buttons[1..][i - 1];
      r
  }

  /** The dialog's scan for a dropdown's starting selection: the loop stops at the first button with the joycode. */
  method CurrentSelection(buttons: seq<(string, string)>, currentJoycode: string) returns (selection: string)
    ensures selection == FirstName(buttons, currentJoycode)
  {
    var i := 0;
    while i < |buttons|
      invariant 0 <= i <= |buttons|
      invariant FirstName(buttons[i..], currentJoycode) == FirstName(buttons, currentJoycode)
    {
      var (buttonCode, buttonName) := buttons[i];
      if buttonCode == currentJoycode {
        return buttonName;
      }
      assert buttons[i..][1..] == buttons[i + 1..];
      i := i + 1;
    }
    selection := currentJoycode;
  }

  /** The dialog's button names are all different. */
  lemma AvailableNamesDistinct()
    ensures forall i, j | 0 <= i < j < |AvailableButtons| :: AvailableButtons[i].1 != AvailableButtons[j].1
  {
    var b := AvailableButtons;
    forall i, j | 0 <= i < j < |b| ensures b[i].1 != b[j].1 {
      if i < 6 && j < 6 {
        assert b[i].1[7] != b[j].1[7];
      } else if j == 11 {
        assert b[j].1[8] == '0' && (|b[i].1| < 9 || b[i].1[8] != '0');
      } else {
        assert b[i].1[..9] != b[j].1[..9] || b[i].1[9..] != b[j].1[9..];
      }
    }
  }

  /** With distinct names, the name of any entry looks up that entry's code. */
  lemma NameToCodeAt(buttons: seq<(string, string)>, i0: nat)
    requires forall i, j | 0 <= i < j < |buttons| :: buttons[i].1 != buttons[j].1
    requires i0 < |buttons|
    ensures NameToCode(buttons, buttons[i0].1) == buttons[i0].0
  {
    var byName := seq(|buttons|, i requires 0 <= i < |buttons| => (buttons[i].1, buttons[i].0));
    var n := buttons[i0].1;
    assert byName[i0].0 == n;
    var c := LastWrite(byName, n).value;
    var k :| 0 <= k < |byName| && byName[k] == (n, c);
    assert buttons[k].1 == buttons[i0].1;
  }

  /** With distinct names, the code-to-name and name-to-code lookups undo each other. */
  lemma NameToCodeFirstName(buttons: seq<(string, string)>, joycode: string)
    requires forall i, j | 0 <= i < j < |buttons| :: buttons[i].1 != buttons[j].1
    requires forall i | 0 <= i < |buttons| :: buttons[i].1 != joycode
    ensures NameToCode(buttons, FirstName(buttons, joycode)) == joycode
  {
    var n := FirstName(buttons, joycode);
    if exists i | 0 <= i < |buttons| :: buttons[i].0 == joycode {
      var i0 :| 0 <= i0 < |buttons| && buttons[i0] == (joycode, n);
      NameToCodeAt(buttons, i0);
    } else {
      var byName := seq(|buttons|, i requires 0 <= i < |buttons| => (buttons[i].1, buttons[i].0));
      assert forall i | 0 <= i < |byName| :: byName[i].0 != n;
    }
  }

  /**
   * A dropdown left at its initial selection maps back to the joycode it
   * started from, unless that joycode is spelled like a button name.
   */
  lemma SelectionRoundTrip(joycode: string)
    requires forall i | 0 <= i < |AvailableButtons| :: AvailableButtons[i].1 != joycode
    ensures CodeForName(InitialSelection(joycode)) == joycode
  {
    AvailableNamesDistinct();
    NameToCodeFirstName(AvailableButtons, joycode);
  }

  /** `control.replace("P1_", "P2_")`. */
  function Mirror(control: string): string
  {
    ReplaceAll(control, "P1_", "P2_")
  }

  /** `joycode.replace("JOYCODE_1_", "JOYCODE_2_")`. */
  function MirrorCode(joycode: string): string
  {
    ReplaceAll(joycode, "JOYCODE_1_", "JOYCODE_2_")
  }

  /** A player-one control mirrors to a player-two control. */
  lemma MirrorPlayerOne(control: string)
    requires StartsWith(control, "P1_")
    ensures StartsWith(Mirror(control), "P2_")
  {
    assert control == "P1_" + control[3..];
    ReplaceAllHit(control[3..], "P1_", "P2_");
    var m := Mirror(control);
    assert m == "P2_" + ReplaceAll(control[3..], "P1_", "P2_");
    assert m[..3] == "P2_";
  }

  /** A player-one joycode mirrors to the same code of the second joystick. */
  lemma MirrorCodePlayerOne(rest: string)
    requires NoChar(rest, 'J')
    ensures MirrorCode("JOYCODE_1_" + rest) == "JOYCODE_2_" + rest
  {
    ReplaceAllHit(rest, "JOYCODE_1_", "JOYCODE_2_");
    ReplaceAllNoFirst(rest, "JOYCODE_1_", "JOYCODE_2_");
  }

  /** The assignments one dropdown causes: its control, then the mirrored control if the mapping has it. */
  function StepWrites(current: Dict<string>, control: string, code: string): (r: seq<(string, string)>)
  {
    [(control, code)] + (if HasKey(current, Mirror(control)) then [(Mirror(control), MirrorCode(code))] else [])
  }

  /** All assignments of `apply_custom_mappings`, in order. */
  function SelectionWrites(current: Dict<string>, selections: Dict<string>): seq<(string, string)>
    decreases |selections|
  {
    if |selections| == 0 then []
    else
      var (control, name) := selections[|selections| - 1];
      SelectionWrites(current, selections[..|selections| - 1]) + StepWrites(current, control, CodeForName(name))
  }

  /**
   * `apply_custom_mappings`: the new mapping built from the dropdown selections
   * (control to selected name) over the mapping the dialog was opened with.
   */
  function CustomMappings(current: Dict<string>, selections: Dict<string>): Dict<string>
  {
    PutAll([], SelectionWrites(current, selections))
  }

  lemma PutAllStep(d: Dict<string>, current: Dict<string>, control: string, code: string)
    ensures var d1 := Put(d, control, code);
            PutAll(d, StepWrites(current, control, code))
            == if HasKey(current, Mirror(control)) then Put(d1, Mirror(control), MirrorCode(code)) else d1
  {
    var one := [(control, code)];
    assert PutAll(d, one) == Put(d, control, code) by {
      assert one[..0] == [];
    }
    if HasKey(current, Mirror(control)) {
      var w := one + [(Mirror(control), MirrorCode(code))];
      assert StepWrites(current, control, code) == w;
      assert w[..1] == one;
    } else {
      assert StepWrites(current, control, code) == one;
    }
  }

  /** The assignments of one more dropdown follow those of the dropdowns before it. */
  lemma SelectionWritesSnoc(current: Dict<string>, selections: Dict<string>, i: nat)
    requires i < |selections|
    ensures SelectionWrites(current, selections[..i + 1])
            == SelectionWrites(current, selections[..i]) + StepWrites(current, selections[i].0, CodeForName(selections[i].1))
  {
    var pre := selections[..i + 1];
    assert pre[..|pre| - 1] == selections[..i];
    assert pre[|pre| - 1] == selections[i];
  }

  /** The mapping after one more dropdown: its control set, then its mirror if the mapping has one. */
  lemma CustomMappingsSnoc(current: Dict<string>, selections: Dict<string>, i: nat)
    requires i < |selections|
    ensures var d := PutAll([], SelectionWrites(current, selections[..i]));
            var (control, code) := (selections[i].0, CodeForName(selections[i].1));
            var d1 := Put(d, control, code);
            PutAll([], SelectionWrites(current, selections[..i + 1]))
            == if HasKey(current, Mirror(control)) then Put(d1, Mirror(control), MirrorCode(code)) else d1
  {
    var control, code := selections[i].0, CodeForName(selections[i].1);
    SelectionWritesSnoc(current, selections, i);
    PutAllConcat([], SelectionWrites(current, selections[..i]), StepWrites(current, control, code));
    PutAllStep(PutAll([], SelectionWrites(current, selections[..i])), current, control, code);
  }

  /** The dialog's loop, building `new_mappings` one dropdown at a time. */
  method ApplyCustomMappings(current: Dict<string>, selections: Dict<string>) returns (newMappings: Dict<string>)
    ensures newMappings == CustomMappings(current, selections)
  {
    newMappings := [];
    var i := 0;
    while i < |selections|
      invariant 0 <= i <= |selections|
      invariant newMappings == PutAll([], SelectionWrites(current, selections[..i]))
    {
      CustomMappingsSnoc(current, selections, i);
      var (control, selectedName) := selections[i];
      var joycode := CodeForName(selectedName);
      newMappings := Put(newMappings, control, joycode);
      var p2Control := Mirror(control);
      if HasKey(current, p2Control) {
        newMappings := Put(newMappings, p2Control, MirrorCode(joycode));
      }
      i := i + 1;
    }
    assert selections[..i] == selections;
  }

  lemma PlayersDiffer(a: string, b: string)
    requires StartsWith(a, "P1_") && StartsWith(b, "P2_")
    ensures a != b
  {
    assert a[..3][1] != b[..3][1];
  }

  /** One dropdown writes its control, and its mirror when the mapping has that. */
  lemma StepWritesKeys(current: Dict<string>, c: string, code: string, key: string)
    ensures LastWrite(StepWrites(current, c, code), key).Some? <==> key == c || (HasKey(current, Mirror(c)) && key == Mirror(c))
  {
    var step := StepWrites(current, c, code);
    assert step[0].0 == c;
    if |step| == 2 {
      assert step[1].0 == Mirror(c);
    }
  }

  /** Some dropdown of a longer list names `key` exactly when one before the last does or the last does. */
  lemma SelectionNamesSnoc(selections: Dict<string>, init: Dict<string>, key: string)
    requires |selections| > 0 && init == selections[..|selections| - 1]
    ensures var last := selections[|selections| - 1].0;
            && ((exists i | 0 <= i < |selections| :: selections[i].0 == key)
                <==> (exists i | 0 <= i < |init| :: init[i].0 == key) || last == key)
            && ((exists i | 0 <= i < |selections| :: Mirror(selections[i].0) == key)
                <==> (exists i | 0 <= i < |init| :: Mirror(init[i].0) == key) || Mirror(last) == key)
  {
    assert forall i | 0 <= i < |init| :: init[i] == selections[i];
  }

  /** The keys written are the selected controls and the mirrors the mapping already has. */
  lemma {:induction false} SelectionWritesKeys(current: Dict<string>, selections: Dict<string>, key: string)
    ensures LastWrite(SelectionWrites(current, selections), key).Some? <==>
              (exists i | 0 <= i < |selections| :: selections[i].0 == key)
              || (HasKey(current, key) && exists i | 0 <= i < |selections| :: Mirror(selections[i].0) == key)
    decreases |selections|
  {
    if |selections| > 0 {
      var n := |selections|;
      var init := selections[..n - 1];
      var (c, name) := selections[n - 1];
      var code := CodeForName(name);
      SelectionWritesKeys(current, init, key);
      LastWriteConcat(SelectionWrites(current, init), StepWrites(current, c, code), key);
      StepWritesKeys(current, c, code, key);
      SelectionNamesSnoc(selections, init, key);
    }
  }

  /** `new_mappings` has exactly the selected controls and their mirrors that the mapping already had. */
  lemma CustomMappingsKeys(current: Dict<string>, selections: Dict<string>, key: string)
    ensures HasKey(CustomMappings(current, selections), key) <==>
              (exists i | 0 <= i < |selections| :: selections[i].0 == key)
              || (HasKey(current, key) && exists i | 0 <= i < |selections| :: Mirror(selections[i].0) == key)
  {
    PutAllLastWrite([], SelectionWrites(current, selections), key);
    SelectionWritesKeys(current, selections, key);
  }

  lemma {:induction false} LastWritePlayerOne(current: Dict<string>, selections: Dict<string>, k: nat)
    requires forall i | 0 <= i < |selections| :: StartsWith(selections[i].0, "P1_")
    requires forall i, j | 0 <= i < j < |selections| :: selections[i].0 != selections[j].0
    requires k < |selections|
    ensures LastWrite(SelectionWrites(current, selections), selections[k].0) == Some(CodeForName(selections[k].1))
    decreases |selections|
  {
    var n := |selections|;
    var init := selections[..n - 1];
    var (c, name) := selections[n - 1];
    var key := selections[k].0;
    var step := StepWrites(current, c, CodeForName(name));
    LastWriteConcat(SelectionWrites(current, init), step, key);
    MirrorPlayerOne(c);
    PlayersDiffer(key, Mirror(c));
    if k == n - 1 {
      assert LastWrite(step, key) == Some(CodeForName(name)) by {
        if |step| == 2 {
          assert step[..1] == [(c, CodeForName(name))];
        }
      }
    } else {
      assert forall i | 0 <= i < n - 1 :: init[i] == selections[i];
      LastWritePlayerOne(current, init, k);
      assert forall i | 0 <= i < |step| :: step[i].0 != key;
    }
  }

  /** Each selected player-one control maps to the joycode of the button named in its dropdown. */
  lemma CustomMappingsPlayerOne(current: Dict<string>, selections: Dict<string>, k: nat)
    requires forall i | 0 <= i < |selections| :: StartsWith(selections[i].0, "P1_")
    requires forall i, j | 0 <= i < j < |selections| :: selections[i].0 != selections[j].0
    requires k < |selections|
    ensures Get(CustomMappings(current, selections), selections[k].0) == Some(CodeForName(selections[k].1))
  {
    PutAllLastWrite([], SelectionWrites(current, selections), selections[k].0);
    LastWritePlayerOne(current, selections, k);
  }

  lemma {:induction false} LastWriteMirror(current: Dict<string>, selections: Dict<string>, k: nat)
    requires forall i | 0 <= i < |selections| :: StartsWith(selections[i].0, "P1_")
    requires forall i, j | 0 <= i < j < |selections| :: Mirror(selections[i].0) != Mirror(selections[j].0)
    requires k < |selections| && HasKey(current, Mirror(selections[k].0))
    ensures LastWrite(SelectionWrites(current, selections), Mirror(selections[k].0))
            == Some(MirrorCode(CodeForName(selections[k].1)))
    decreases |selections|
  {
    var n := |selections|;
    var init := selections[..n - 1];
    var (c, name) := selections[n - 1];
    var key := Mirror(selections[k].0);
    var step := StepWrites(current, c, CodeForName(name));
    LastWriteConcat(SelectionWrites(current, init), step, key);
    MirrorPlayerOne(selections[k].0);
    PlayersDiffer(c, key);
    if k < n - 1 {
      assert forall i | 0 <= i < n - 1 :: init[i] == selections[i];
      LastWriteMirror(current, init, k);
      assert forall i | 0 <= i < |step| :: step[i].0 != key;
    }
  }

  /**
   * Each selected control whose player-two twin is in the mapping also sets the
   * twin, to the same button on the second joystick.
   */
  lemma CustomMappingsMirror(current: Dict<string>, selections: Dict<string>, k: nat)
    requires forall i | 0 <= i < |selections| :: StartsWith(selections[i].0, "P1_")
    requires forall i, j | 0 <= i < j < |selections| :: Mirror(selections[i].0) != Mirror(selections[j].0)
    requires k < |selections| && HasKey(current, Mirror(selections[k].0))
    ensures Get(CustomMappings(current, selections), Mirror(selections[k].0))
            == Some(MirrorCode(CodeForName(selections[k].1)))
  {
    PutAllLastWrite([], SelectionWrites(current, selections), Mirror(selections[k].0));
    LastWriteMirror(current, selections, k);
  }

  /** The characters `save_custom_layout` keeps in a file name: letters, digits, space, `-` and `_`. */
  predicate FilenameChar(c: char)
  {
    IsAlnum(c) || c == ' ' || c == '-' || c == '_'
  }

  /** `"".join(c for c in name if c.isalnum() or c in (' ', '-', '_'))`. */
  function KeepFilenameChars(name: string): (r: string)
    ensures |r| <= |name|
    ensures forall i | 0 <= i < |r| :: FilenameChar(r[i])
    ensures (forall i | 0 <= i < |name| :: FilenameChar(name[i])) ==> r == name
    decreases |name|
  {
    if |name| == 0 then []
    else
      var rest := KeepFilenameChars(name[1..]);
      if FilenameChar(name[0]) then [name[0]] + rest else rest
  }

  /** `s.replace(' ', '_')`. */
  function SpacesToUnderscores(s: string): (r: string)
    ensures |r| == |s|
    ensures forall i | 0 <= i < |s| :: r[i] == (if s[i] == ' ' then '_' else s[i])
  {
    seq(|s|, i requires 0 <= i < |s| => if s[i] == ' ' then '_' else s[i])
  }

  /** Filtering a concatenation filters each part. */
  lemma {:induction false} KeepFilenameCharsAppend(a: string, b: string)
    ensures KeepFilenameChars(a + b) == KeepFilenameChars(a) + KeepFilenameChars(b)
    decreases |a|
  {
    if |a| == 0 {
      assert a + b == b;
    } else {
      assert (a + b)[0] == a[0] && (a + b)[1..] == a[1..] + b;
      KeepFilenameCharsAppend(a[1..], b);
    }
  }

  /** One character is kept exactly when it is a letter, a digit, a space, `-` or `_`. */
  lemma KeepFilenameCharsOne(c: char)
    ensures KeepFilenameChars([c]) == if FilenameChar(c) then [c] else []
  {
    assert [c][1..] == [];
  }

  /** `SpacesToUnderscores` is `str.replace(' ', '_')`. */
  lemma {:induction false} SpacesToUnderscoresIsReplace(s: string)
    ensures SpacesToUnderscores(s) == ReplaceAll(s, " ", "_")
    decreases |s|
  {
    if |s| > 0 {
      SpacesToUnderscoresIsReplace(s[1..]);
      assert s[..1] == [s[0]];
      assert SpacesToUnderscores(s) == [SpacesToUnderscores(s)[0]] + SpacesToUnderscores(s[1..]);
    }
  }

  lemma SpacesToUnderscoresAppend(a: string, b: string)
    ensures SpacesToUnderscores(a + b) == SpacesToUnderscores(a) + SpacesToUnderscores(b)
  {
  }

  /** Trailing whitespace after a non-space character lies wholly behind it. */
  lemma RStripAfter(x: string, c: char, y: string)
    requires !IsSpace(c)
    ensures RStrip(x + [c] + y) == x + [c] + RStrip(y)
    decreases |y|
  {
    if |y| > 0 && IsSpace(y[|y| - 1]) {
      assert (x + [c] + y)[..|x + [c] + y| - 1] == x + [c] + y[..|y| - 1];
      RStripAfter(x, c, y[..|y| - 1]);
    } else if |y| == 0 {
      assert x + [c] + y == x + [c];
    }
  }

  /** The file-name cleaning of `save_custom_layout`. */
  function SafeFilename(name: string): string
  {
    SpacesToUnderscores(RStrip(KeepFilenameChars(name)))
  }

  /** A safe file name holds only letters, digits, `-` and `_`, and is no longer than the layout name. */
  lemma SafeFilenameChars(name: string)
    ensures var r := SafeFilename(name);
            |r| <= |name| && forall i | 0 <= i < |r| :: IsAlnum(r[i]) || r[i] == '-' || r[i] == '_'
  {
    var kept := KeepFilenameChars(name);
    var stripped := RStrip(kept);
    assert forall i | 0 <= i < |stripped| :: stripped[i] == kept[i];
  }

  /** A name made only of letters, digits, `-` and `_` is its own safe file name. */
  lemma SafeFilenameUnchanged(name: string)
    requires forall i | 0 <= i < |name| :: IsAlnum(name[i]) || name[i] == '-' || name[i] == '_'
    ensures SafeFilename(name) == name
  {
    var kept := KeepFilenameChars(name);
    assert kept == name;
    var stripped := RStrip(kept);
    assert forall i | 0 <= i < |name| :: !IsSpace(name[i]);
    assert stripped == name;
  }

  /**
   * A kept character other than a space survives in place: what comes before
   * it is filtered with its spaces turned into `_`, and what comes after it
   * is cleaned on its own.
   */
  lemma SafeFilenameKeeps(a: string, c: char, b: string)
    requires FilenameChar(c) && c != ' '
    ensures SafeFilename(a + [c] + b) == SpacesToUnderscores(KeepFilenameChars(a)) + [c] + SafeFilename(b)
  {
    var ka, kb := KeepFilenameChars(a), KeepFilenameChars(b);
    KeepFilenameCharsAppend(a + [c], b);
    KeepFilenameCharsAppend(a, [c]);
    KeepFilenameCharsOne(c);
    assert KeepFilenameChars(a + [c] + b) == ka + [c] + kb;
    RStripAfter(ka, c, kb);
    var t := RStrip(kb);
    SpacesToUnderscoresAppend(ka + [c], t);
    SpacesToUnderscoresAppend(ka, [c]);
    assert SpacesToUnderscores([c]) == [c];
  }

  /** A tail of spaces and characters that are dropped anyway does not change the file name. */
  lemma SafeFilenameDropsTail(a: string, b: string)
    requires forall i | 0 <= i < |b| :: b[i] == ' ' || !FilenameChar(b[i])
    ensures SafeFilename(a + b) == SafeFilename(a)
  {
    KeepFilenameCharsAppend(a, b);
    var ka, kb := KeepFilenameChars(a), KeepFilenameChars(b);
    KeepFilenameSpaces(b);
    RStripSpaces(ka, kb);
  }

  /** Filtering a string of spaces and dropped characters leaves only spaces. */
  lemma {:induction false} KeepFilenameSpaces(b: string)
    requires forall i | 0 <= i < |b| :: b[i] == ' ' || !FilenameChar(b[i])
    ensures forall i | 0 <= i < |KeepFilenameChars(b)| :: KeepFilenameChars(b)[i] == ' '
    decreases |b|
  {
    if |b| > 0 {
      KeepFilenameSpaces(b[1..]);
    }
  }

  /** `rstrip` removes a tail made only of spaces together with what it strips before it. */
  lemma {:induction false} RStripSpaces(x: string, y: string)
    requires forall i | 0 <= i < |y| :: y[i] == ' '
    ensures RStrip(x + y) == RStrip(x)
    decreases |y|
  {
    if |y| == 0 {
      assert x + y == x;
    } else {
      assert (x + y)[..|x + y| - 1] == x + y[..|y| - 1];
      RStripSpaces(x, y[..|y| - 1]);
    }
  }

  /** Cleaning a cleaned name changes nothing. */
  lemma SafeFilenameIdempotent(name: string)
    ensures SafeFilename(SafeFilename(name)) == SafeFilename(name)
  {
    SafeFilenameChars(name);
    SafeFilenameUnchanged(SafeFilename(name));
  }
}
