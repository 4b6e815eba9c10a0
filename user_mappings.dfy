/**
 * The user ROM-mapping file: `rom = type` lines that add a mapping type to a
 * ROM of the game database, or add a new ROM copied from a template ROM
 * (`load_user_rom_mappings`, `add_rom_with_mapping`).
 */
module UserMappings {
  import opened Wrappers
  import opened Dicts
  import opened Text
  import opened GameData

  /** The mapping types a user line may name. */
  const ValidTypes: seq<string> := ["sf", "mk", "tekken", "tekkent"]

  /** How one line of the file is read. */
  datatype LineKind =
    | Skipped                          // empty after stripping, or a `#` comment
    | BadFormat                        // no `=` on the line
    | BadType(mappingType: string)     // a type outside ValidTypes
    | Mapping(rom: string, mappingType: string)

  /** Splitting at the first `=` is the only way to cut the line at an `=` with none before it. */
  lemma {:induction false} SplitFirstUnique(s: string, c: char, a: string, b: string)
    requires s == a + [c] + b && c !in a
    ensures SplitFirst(s, c) == Some((a, b))
    decreases |a|
  {
    if |a| > 0 {
      assert s[0] == a[0] && s[1..] == a[1..] + [c] + b;
      SplitFirstUnique(s[1..], c, a[1..], b);
      assert [a[0]] + a[1..] == a;
    } else {
      assert s[1..] == b;
    }
  }

  /** Reads one line: strip it, skip blanks and comments, split at the first `=`, strip both halves. */
  function ParseLine(line: string): (r: LineKind)
    ensures r.Skipped? <==> Strip(line) == [] || Strip(line)[0] == '#'
    ensures r.BadFormat? <==> !r.Skipped? && '=' !in Strip(line)
    ensures r.Mapping? ==> r.mappingType in ValidTypes
    ensures r.BadType? ==> r.mappingType !in ValidTypes
    ensures r.Mapping? ==> '=' !in r.rom && (r.rom == [] || (!IsSpace(r.rom[0]) && !IsSpace(r.rom[|r.rom| - 1])))
  {
    var s := Strip(line);
    if s == [] || s[0] == '#' then Skipped
    else match SplitFirst(s, '=')
      case None => BadFormat
      case Some(parts) =>
        var rom := Strip(parts.0);
        var mappingType := Strip(parts.1);
        assert '=' !in rom by { StripSubset(parts.0); }
        if mappingType in ValidTypes then Mapping(rom, mappingType) else BadType(mappingType)
  }

  lemma StripSubset(s: string)
    ensures forall c | c in Strip(s) :: c in s
  {
    var l := LStrip(s);
    assert forall c | c in RStrip(l) :: c in l;
  }

  /** A line `a = b` with no `=` in `a` names ROM `strip(a)` and type `strip(b)`, whatever `b` holds. */
  lemma ParseLineSplitsAtFirstEquals(line: string, a: string, b: string)
    requires Strip(line) == a + "=" + b && '=' !in a
    requires Strip(line)[0] != '#'
    ensures ParseLine(line) == if Strip(b) in ValidTypes then Mapping(Strip(a), Strip(b)) else BadType(Strip(b))
  {
    SplitFirstUnique(Strip(line), '=', a, b);
  }

  /** A ROM that can serve as template for `mappingType`: it lists the type and has controls. */
  predicate IsTemplate(rec: RomRecord, mappingType: string)
  {
    rec.mappings.Some? && mappingType in rec.mappings.value && |rec.controls| > 0
  }

  /** Index of the first template ROM in dictionary order. */
  function FindTemplate(db: Db, mappingType: string): (r: Option<nat>)
    ensures r.Some? ==> r.value < |db| && IsTemplate(db[r.value].1, mappingType)
    ensures r.Some? ==> forall j | 0 <= j < r.value :: !IsTemplate(db[j].1, mappingType)
    ensures r.None? ==> forall j | 0 <= j < |db| :: !IsTemplate(db[j].1, mappingType)
    decreases |db|
  {
    if |db| == 0 then None
    else if IsTemplate(db[0].1, mappingType) then Some(0)
    else match FindTemplate(db[1..], mappingType)
         case None => None
         case Some(i) => Some(i + 1)
  }

  /** The record of a user-added ROM, built from the template's record. */
  function NewRomRecord(rom: string, mappingType: string, template: RomRecord): RomRecord
  {
    RomRecord(
      description := Some(rom + " (User Added - " + Upper(mappingType) + " Layout)"),
      mappings := Some([mappingType]),
      controls := template.controls,
      parent := None,
      cloneof := None,
      clones := {},
      playercount := template.playercount,
      buttons := template.buttons,
      sticks := template.sticks)
  }

  /**
   * `add_rom_with_mapping`: copies the first template ROM. With no template the
   * database is unchanged; so it is when the template's name is the empty
   * string, which the source's `if not template_rom` reads as "no template".
   */
  function AddRom(db: Db, rom: string, mappingType: string): (r: Db)
    ensures FindTemplate(db, mappingType).None? ==> r == db
    ensures FindTemplate(db, mappingType).Some? && db[FindTemplate(db, mappingType).value].0 == "" ==> r == db
    ensures FindTemplate(db, mappingType).Some? && db[FindTemplate(db, mappingType).value].0 != "" ==>
              var template := db[FindTemplate(db, mappingType).value].1;
              && Get(r, rom).Some?
              && Get(r, rom).value.mappings == Some([mappingType])
              && Get(r, rom).value.controls == template.controls
              && Get(r, rom).value.controls != map[]
              && (forall k | k != rom :: Get(r, k) == Get(db, k))
              && (!HasKey(db, rom) ==> r == db + [(rom, Get(r, rom).value)])
    ensures UniqueKeys(db) ==> UniqueKeys(r)
  {
    match FindTemplate(db, mappingType)
    case None => db
    case Some(i) =>
      if db[i].0 == "" then db
      else
        assert |db[i].1.controls| > 0;
        Put(db, rom, NewRomRecord(rom, mappingType, db[i].1))
  }

  /** The existing-ROM branch: a missing `mappings` becomes `[]`, then the type is appended unless present. */
  function AddMapping(rec: RomRecord, mappingType: string): (r: RomRecord)
    ensures r.mappings.Some? && mappingType in r.mappings.value
    ensures var before := if rec.mappings.Some? then rec.mappings.value else [];
            && |r.mappings.value| == |before| + (if mappingType in before then 0 else 1)
            && r.mappings.value[..|before|] == before
    ensures r == rec.(mappings := r.mappings)
  {
    var before := if rec.mappings.Some? then rec.mappings.value else [];
    rec.(mappings := Some(if mappingType in before then before else before + [mappingType]))
  }

  /** A valid `rom = type` line: a new ROM is added from a template, an existing one gains the type. */
  function ApplyMapping(db: Db, rom: string, mappingType: string): (r: Db)
    ensures UniqueKeys(db) ==> UniqueKeys(r)
  {
    if !HasKey(db, rom) then AddRom(db, rom, mappingType)
    else Put(db, rom, AddMapping(Get(db, rom).value, mappingType))
  }

  /** The effect of one line on the database, and how much it adds to `added_count`. */
  function ApplyLine(db: Db, line: string): (r: (Db, nat))
    ensures !ParseLine(line).Mapping? ==> r == (db, 0)
    ensures ParseLine(line).Mapping? ==> r.0 == ApplyMapping(db, ParseLine(line).rom, ParseLine(line).mappingType)
    ensures r.1 == (if ParseLine(line).Mapping? && !HasKey(db, ParseLine(line).rom) then 1 else 0)
    ensures UniqueKeys(db) ==> UniqueKeys(r.0)
  {
    match ParseLine(line)
    case Mapping(rom, mappingType) => (ApplyMapping(db, rom, mappingType), if !HasKey(db, rom) then 1 else 0)
    case _ => (db, 0)
  }

  /** The effect of the first `|lines|` lines, in order, and the final `added_count`. */
  function ApplyLines(db: Db, lines: seq<string>): (r: (Db, nat))
    ensures r.1 <= |lines|
    ensures UniqueKeys(db) ==> UniqueKeys(r.0)
    decreases |lines|
  {
    if |lines| == 0 then (db, 0)
    else
      var prev := ApplyLines(db, lines[..|lines| - 1]);
      var step := ApplyLine(prev.0, lines[|lines| - 1]);
      (step.0, prev.1 + step.1)
  }

  /** A prefix one line longer is the shorter prefix followed by that line. */
  lemma ApplyLinesSnoc(db: Db, lines: seq<string>, i: nat)
    requires i < |lines|
    ensures ApplyLines(db, lines[..i + 1]).0 == ApplyLine(ApplyLines(db, lines[..i]).0, lines[i]).0
    ensures ApplyLines(db, lines[..i + 1]).1 == ApplyLines(db, lines[..i]).1 + ApplyLine(ApplyLines(db, lines[..i]).0, lines[i]).1
  {
    var pre := lines[..i + 1];
    assert pre[..|pre| - 1] == lines[..i];
    assert pre[|pre| - 1] == lines[i];
  }

  /** Re-applying a mapping leaves the database as the first application left it. */
  lemma ApplyMappingIdempotent(db: Db, rom: string, t: string)
    ensures ApplyMapping(ApplyMapping(db, rom, t), rom, t) == ApplyMapping(db, rom, t)
  {
    var once := ApplyMapping(db, rom, t);
    if HasKey(once, rom) {
      var rec := Get(once, rom).value;
      if HasKey(db, rom) {
        assert rec == AddMapping(Get(db, rom).value, t);
      } else {
        assert rec.mappings == Some([t]);
      }
      assert AddMapping(rec, t) == rec;
      PutSame(once, rom, rec);
    } else {
      assert once == db;
    }
  }

  /** Re-applying a line leaves the database as the first application left it. */
  lemma ApplyLineIdempotent(db: Db, line: string)
    ensures ApplyLine(ApplyLine(db, line).0, line).0 == ApplyLine(db, line).0
  {
    if ParseLine(line).Mapping? {
      ApplyMappingIdempotent(db, ParseLine(line).rom, ParseLine(line).mappingType);
    }
  }

  /** A rom already in the database keeps its mappings and gains the line's type, and nothing else changes. */
  lemma ApplyLineExistingRom(db: Db, line: string)
    requires ParseLine(line).Mapping? && HasKey(db, ParseLine(line).rom)
    ensures var rom, t := ParseLine(line).rom, ParseLine(line).mappingType;
            var before := Get(db, rom).value;
            var after := Get(ApplyLine(db, line).0, rom).value;
            && after.mappings.Some? && t in after.mappings.value
            && (before.mappings.Some? ==> after.mappings.value[..|before.mappings.value|] == before.mappings.value)
            && after.controls == before.controls
            && (forall k | k != rom :: Get(ApplyLine(db, line).0, k) == Get(db, k))
            && |ApplyLine(db, line).0| == |db|
  {
  }
}
