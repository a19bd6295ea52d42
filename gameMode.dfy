/**
 * src/utils/gameMode.ts with the presets of src/data/gameModes.ts: the game
 * modes, and the text under which the chosen mode is remembered.
 */
module GameModes {
  import opened Utils
  import opened Decimal
  import opened JsValues
  import opened Settings

  /** A game mode: presets carry their settings, the custom mode carries none. */
  datatype GameMode = GameMode(id: string, settings: Option<GameSettings>)

  const Beginner := GameMode("beginner", Some(GameSettings(9, 9, 10)))
  const Intermediate := GameMode("intermediate", Some(GameSettings(16, 16, 40)))
  const Expert := GameMode("expert", Some(GameSettings(30, 16, 99)))
  const Custom := GameMode("custom", None)

  /** `gameModes`, in their declared order. */
  const AllGameModes: seq<GameMode> := [Beginner, Intermediate, Expert, Custom]

  function Ids(modes: seq<GameMode>): (ids: seq<string>)
    ensures |ids| == |modes| && forall i :: 0 <= i < |modes| ==> ids[i] == modes[i].id
  {
    if modes == [] then [] else [modes[0].id] + Ids(modes[1..])
  }

  /** The modes with settings (`wantSettings`) or without, in their order. */
  function WithSettings(modes: seq<GameMode>, wantSettings: bool): (r: seq<GameMode>)
    ensures forall g :: g in r <==> g in modes && g.settings.Some? == wantSettings
  {
    if modes == [] then []
    else (if modes[0].settings.Some? == wantSettings then [modes[0]] else []) + WithSettings(modes[1..], wantSettings)
  }

  /** `gameModesPresets` */
  function Presets(): seq<GameMode>
  {
    WithSettings(AllGameModes, true)
  }

  /** `gameModesCustom` */
  function Customs(): seq<GameMode>
  {
    WithSettings(AllGameModes, false)
  }

  predicate IsGameModeId(value: string)
  {
    value in Ids(AllGameModes)
  }

  predicate IsGameModePresetId(value: string)
  {
    value in Ids(Presets())
  }

  predicate IsGameModeCustomId(value: string)
  {
    value in Ids(Customs())
  }

  /** The ids of all modes, worked out from `AllGameModes`. */
  lemma AllIdsList()
    ensures Ids(AllGameModes) == ["beginner", "intermediate", "expert", "custom"]
  {
    var a := AllGameModes;
    assert Ids([Custom]) == ["custom"];
    assert a[1..][1..][1..] == [Custom];
    assert a[1..][1..] == [Expert, Custom];
    assert a[1..] == [Intermediate, Expert, Custom];
  }

  /** The presets, worked out from `AllGameModes`. */
  lemma PresetsList()
    ensures Presets() == [Beginner, Intermediate, Expert]
    ensures Ids(Presets()) == ["beginner", "intermediate", "expert"]
  {
    var a := AllGameModes;
    assert a[1..] == [Intermediate, Expert, Custom];
    PresetsAfterBeginner();
    PresetIds();
  }

  lemma PresetsAfterBeginner()
    ensures WithSettings([Intermediate, Expert, Custom], true) == [Intermediate, Expert]
  {
    var t := [Intermediate, Expert, Custom];
    assert t[1..][1..] == [Custom];
    assert WithSettings([Custom], true) == [];
    assert t[1..] == [Expert, Custom];
    assert WithSettings([Expert, Custom], true) == [Expert];
  }

  lemma PresetIds()
    ensures Ids([Beginner, Intermediate, Expert]) == ["beginner", "intermediate", "expert"]
  {
    var p := [Beginner, Intermediate, Expert];
    assert p[1..][1..] == [Expert];
    assert Ids([Expert]) == ["expert"];
    assert p[1..] == [Intermediate, Expert];
  }

  /** The custom modes, worked out from `AllGameModes`. */
  lemma CustomsList()
    ensures Customs() == [Custom]
    ensures Ids(Customs()) == ["custom"]
  {
    var a := AllGameModes;
    assert a[1..][1..][1..] == [Custom];
    assert WithSettings([Custom], false) == [Custom];
    assert a[1..][1..] == [Expert, Custom];
    assert WithSettings([Expert, Custom], false) == [Custom];
    assert a[1..] == [Intermediate, Expert, Custom];
    assert WithSettings([Intermediate, Expert, Custom], false) == [Custom];
  }

  /** The mode lists, worked out from `AllGameModes`. */
  lemma ModeLists()
    ensures Ids(AllGameModes) == ["beginner", "intermediate", "expert", "custom"]
    ensures Presets() == [Beginner, Intermediate, Expert]
    ensures Ids(Presets()) == ["beginner", "intermediate", "expert"]
    ensures Customs() == [Custom]
    ensures Ids(Customs()) == ["custom"]
  {
    AllIdsList();
    PresetsList();
    CustomsList();
  }

  /** The three tests are membership in all ids, in the ids with settings, and in those without. */
  lemma GameModeIdTests(value: string)
    ensures IsGameModeId(value) <==> value in {"beginner", "intermediate", "expert", "custom"}
    ensures IsGameModePresetId(value) <==> value in {"beginner", "intermediate", "expert"}
    ensures IsGameModeCustomId(value) <==> value == "custom"
  {
    ModeIdTest(value);
    PresetIdTest(value);
    CustomsList();
  }

  lemma ModeIdTest(value: string)
    ensures IsGameModeId(value) <==> value in {"beginner", "intermediate", "expert", "custom"}
  {
    AllIdsList();
    var ids := Ids(AllGameModes);
    assert value in ids <==> value == ids[0] || value == ids[1] || value == ids[2] || value == ids[3];
  }

  lemma PresetIdTest(value: string)
    ensures IsGameModePresetId(value) <==> value in {"beginner", "intermediate", "expert"}
  {
    PresetsList();
    var ids := Ids(Presets());
    assert value in ids <==> value == ids[0] || value == ids[1] || value == ids[2];
  }

  /** Every preset's settings are playable as they stand. */
  lemma PresetsNormalized(g: GameMode)
    requires g in AllGameModes && g.settings.Some?
    ensures IsNormalized(g.settings.value)
  {
  }

  /** `modes.find(({ id }) => id === value)`: the first mode with that id. */
  function FindById(modes: seq<GameMode>, value: string): (r: Option<GameMode>)
    ensures r.Some? ==> r.value in modes && r.value.id == value
    ensures r.None? <==> value !in Ids(modes)
  {
    if modes == [] then None
    else if modes[0].id == value then Some(modes[0])
    else FindById(modes[1..], value)
  }

  /** `defaultGameModePreset`: the preset found under "beginner". */
  function DefaultGameModePreset(): (g: GameMode)
    ensures g == Beginner
  {
    match FindById(Presets(), "beginner")
    case Some(g) => g
    case None => Beginner
  }

  // ---------------------------------------------------------------------------
  // The storage pattern `^(.+):([1-9]\d*|0),([1-9]\d*|0),([1-9]\d*|0)$`

  /** The characters that JavaScript's `.` does not match. */
  predicate IsLineTerminator(c: char)
  {
    c == '\n' || c == '\r' || c == ' ' || c == ' '
  }

  predicate NoLineTerminator(s: string)
  {
    forall i :: 0 <= i < |s| ==> !IsLineTerminator(s[i])
  }

  /** The position of the first `c` in `s`. */
  function IndexOf(s: string, c: char): (r: Option<nat>)
    ensures r.Some? ==> r.value < |s| && s[r.value] == c && forall i :: 0 <= i < r.value ==> s[i] != c
    ensures r.None? ==> forall i :: 0 <= i < |s| ==> s[i] != c
  {
    if s == [] then None
    else if s[0] == c then Some(0)
    else
      match IndexOf(s[1..], c)
      case None => None
      case Some(k) => Some(k + 1)
  }

  /** The position of the last `c` in `s`. */
  function LastIndexOf(s: string, c: char): (r: Option<nat>)
    ensures r.Some? ==> r.value < |s| && s[r.value] == c && forall i :: r.value < i < |s| ==> s[i] != c
    ensures r.None? ==> forall i :: 0 <= i < |s| ==> s[i] != c
  {
    if s == [] then None
    else if s[|s| - 1] == c then Some(|s| - 1)
    else LastIndexOf(s[..|s| - 1], c)
  }

  /** The first `c` of `a + [c] + t` is the one after `a` when `a` has none. */
  lemma IndexOfAt(a: string, c: char, t: string)
    requires c !in a
    ensures IndexOf(a + [c] + t, c) == Some(|a|)
  {
    var s := a + [c] + t;
    assert s[|a|] == c;
    assert forall i :: 0 <= i < |a| ==> s[i] == a[i];
  }

  /** The last `c` of `a + [c] + t` is the one after `a` when `t` has none. */
  lemma {:induction false} LastIndexOfAt(a: string, c: char, t: string)
    requires c !in t
    ensures LastIndexOf(a + [c] + t, c) == Some(|a|)
    decreases |t|
  {
    var s := a + [c] + t;
    if t == [] {
      assert s[|s| - 1] == c;
    } else {
      var t' := t[..|t| - 1];
      assert s[|s| - 1] == t[|t| - 1];
      assert s[..|s| - 1] == a + [c] + t';
      LastIndexOfAt(a, c, t');
    }
  }

  /** `w,h,b` split at its two commas. */
  function SplitTail(t: string): Option<(string, string, string)>
  {
    match IndexOf(t, ',')
    case None => None
    case Some(i) =>
      var rest := t[i + 1..];
      match IndexOf(rest, ',')
      case None => None
      case Some(j) => Some((t[..i], rest[..j], rest[j + 1..]))
  }

  /**
   * The four groups of the storage pattern. The numbers hold no ':', so the
   * greedy first group ends at the last ':' of the text.
   */
  function MatchStoragePattern(s: string): Option<(string, string, string, string)>
  {
    match LastIndexOf(s, ':')
    case None => None
    case Some(p) =>
      var id := s[..p];
      match SplitTail(s[p + 1..])
      case None => None
      case Some((w, h, b)) =>
        if 1 <= |id| && NoLineTerminator(id) && IsCanonicalDecimal(w) && IsCanonicalDecimal(h) && IsCanonicalDecimal(b)
        then Some((id, w, h, b))
        else None
  }

  /** The text `id:w,h,b`. */
  function StorageText(id: string, w: string, h: string, b: string): string
  {
    id + ":" + w + "," + h + "," + b
  }

  lemma StorageTextShape(id: string, w: string, h: string, b: string)
    ensures StorageText(id, w, h, b) == id + [':'] + (w + [','] + (h + [','] + b))
  {
  }

  /** What the anchored pattern accepts, and its groups, stated directly. */
  predicate IsStorageMatch(s: string, id: string, w: string, h: string, b: string)
  {
    && s == StorageText(id, w, h, b)
    && 1 <= |id| && NoLineTerminator(id)
    && IsCanonicalDecimal(w) && IsCanonicalDecimal(h) && IsCanonicalDecimal(b)
  }

  lemma CanonicalHasNo(s: string, c: char)
    requires IsCanonicalDecimal(s) && !IsDigit(c)
    ensures c !in s
  {
  }

  /** What the pattern matcher returns is a match of the anchored pattern. */
  lemma MatchStoragePatternSound(s: string, id: string, w: string, h: string, b: string)
    requires MatchStoragePattern(s) == Some((id, w, h, b))
    ensures IsStorageMatch(s, id, w, h, b)
  {
    var p := LastIndexOf(s, ':').value;
    assert id == s[..p] && SplitTail(s[p + 1..]) == Some((w, h, b));
    SplitTailSound(s[p + 1..], w, h, b);
    JoinAt(s, p);
    StorageTextShape(id, w, h, b);
  }

  /** What `SplitTail` returns joins back, with its two commas, into the text it split. */
  lemma SplitTailSound(t: string, w: string, h: string, b: string)
    requires SplitTail(t) == Some((w, h, b))
    ensures t == w + [','] + (h + [','] + b)
  {
    var i := IndexOf(t, ',').value;
    var rest := t[i + 1..];
    var j := IndexOf(rest, ',').value;
    assert w == t[..i] && h == rest[..j] && b == rest[j + 1..];
    JoinAt(rest, j);
    JoinAt(t, i);
  }

  /** A text is what lies before a position, the character there, and what lies after. */
  lemma JoinAt(s: string, p: nat)
    requires p < |s|
    ensures s == s[..p] + [s[p]] + s[p + 1..]
  {
  }

  /** Three numbers joined by commas split back into those numbers. */
  lemma SplitTailJoined(w: string, h: string, b: string)
    requires ',' !in w && ',' !in h
    ensures SplitTail(w + [','] + (h + [','] + b)) == Some((w, h, b))
  {
    var rest := h + [','] + b;
    var t := w + [','] + rest;
    IndexOfAt(w, ',', rest);
    assert t[..|w|] == w && t[|w| + 1..] == rest;
    IndexOfAt(h, ',', b);
    assert rest[..|h|] == h && rest[|h| + 1..] == b;
  }

  /**
   * On `id:w,h,b` whose parts hold no ':' and whose first two hold no ',',
   * the matcher splits at the separators written and then checks each group.
   */
  lemma MatchStoragePatternJoined(id: string, w: string, h: string, b: string)
    requires ':' !in w && ':' !in h && ':' !in b && ',' !in w && ',' !in h
    ensures MatchStoragePattern(StorageText(id, w, h, b)) ==
              if 1 <= |id| && NoLineTerminator(id) && IsCanonicalDecimal(w) && IsCanonicalDecimal(h) && IsCanonicalDecimal(b)
              then Some((id, w, h, b)) else None
  {
    var s := StorageText(id, w, h, b);
    var t := w + [','] + (h + [','] + b);
    assert ':' !in t;
    StorageTextShape(id, w, h, b);
    LastIndexOfAt(id, ':', t);
    assert s[..|id|] == id && s[|id| + 1..] == t;
    SplitTailJoined(w, h, b);
  }

  /** Every match of the anchored pattern is found, with its groups. */
  lemma MatchStoragePatternComplete(s: string, id: string, w: string, h: string, b: string)
    requires IsStorageMatch(s, id, w, h, b)
    ensures MatchStoragePattern(s) == Some((id, w, h, b))
  {
    CanonicalHasNo(w, ','); CanonicalHasNo(h, ',');
    CanonicalHasNo(w, ':'); CanonicalHasNo(h, ':'); CanonicalHasNo(b, ':');
    MatchStoragePatternJoined(id, w, h, b);
  }

  /** The pattern matcher finds exactly the groups the anchored pattern defines. */
  lemma MatchStoragePatternSpec(s: string, id: string, w: string, h: string, b: string)
    ensures MatchStoragePattern(s) == Some((id, w, h, b)) <==> IsStorageMatch(s, id, w, h, b)
  {
    if MatchStoragePattern(s) == Some((id, w, h, b)) {
      MatchStoragePatternSound(s, id, w, h, b);
    }
    if IsStorageMatch(s, id, w, h, b) {
      MatchStoragePatternComplete(s, id, w, h, b);
    }
  }

  // ---------------------------------------------------------------------------
  // Reading and writing the remembered mode

  /** `StorageGameModeWithSettings` */
  datatype ModeWithSettings = ModeWithSettings(mode: GameMode, settings: GameSettings)

  /**
   * `parseStorageGameMode`: nothing stored gives nothing; a preset id gives
   * that preset; `id:w,h,b` with the custom id gives the custom mode with the
   * numbers normalised; anything else gives nothing.
   */
  function ParseStorageGameMode(storageValue: Option<string>): (r: Option<ModeWithSettings>)
    ensures storageValue.None? ==> r.None?
    ensures r.Some? ==> r.value.mode in AllGameModes && IsNormalized(r.value.settings)
  {
    match storageValue
    case None => None
    case Some(value) =>
      if IsGameModePresetId(value) then
        match FindById(Presets(), value)
        case None => None
        case Some(preset) =>
          match preset.settings
          case None => None
          case Some(settings) =>
            PresetsNormalized(preset);
            Some(ModeWithSettings(preset, settings))
      else
        match MatchStoragePattern(value)
        case None => None
        case Some((id, w, h, b)) =>
          if !IsGameModeCustomId(id) then None
          else
            match FindById(Customs(), id)
            case None => None
            case Some(custom) =>
              var numbers := NumberSettings(Int(DecimalValue(w)), Int(DecimalValue(h)), Int(DecimalValue(b)));
              Some(ModeWithSettings(custom, NormalizeGameSettings(numbers)))
  }

  /** `String(n)` for an integer. */
  function IntString(n: int): string
  {
    if n < 0 then "-" + DecimalString(-n) else DecimalString(n)
  }

  /** The value `rememberGameModePreset` stores: a preset id, the one the preset is found by. */
  function RememberGameModePreset(preset: GameMode): (s: string)
    requires preset in [Beginner, Intermediate, Expert]
    ensures IsGameModePresetId(s)
    ensures FindById(Presets(), s) == Some(preset)
  {
    FindPreset(preset);
    preset.id
  }

  /**
   * The value `rememberGameModeCustom` stores: `id:width,height,bombs`, so the
   * mode id, then ':', then the three numbers separated by commas.
   */
  function RememberGameModeCustom(custom: GameMode, g: GameSettings): (s: string)
    ensures |s| > |custom.id| && s[..|custom.id|] == custom.id && s[|custom.id|] == ':'
    ensures s[|custom.id| + 1..] == IntString(g.width) + "," + IntString(g.height) + "," + IntString(g.bombs)
  {
    var w, h, b := IntString(g.width), IntString(g.height), IntString(g.bombs);
    StorageTextShape(custom.id, w, h, b);
    StorageText(custom.id, w, h, b)
  }

  /** A remembered preset reads back as that preset with its settings. */
  lemma PresetRoundTrip(preset: GameMode)
    requires preset in [Beginner, Intermediate, Expert]
    ensures ParseStorageGameMode(Some(RememberGameModePreset(preset))) ==
              Some(ModeWithSettings(preset, preset.settings.value))
  {
    FindPreset(preset);
  }

  /** Each preset is found under its own id among the presets. */
  lemma FindPreset(preset: GameMode)
    requires preset in [Beginner, Intermediate, Expert]
    ensures IsGameModePresetId(preset.id)
    ensures FindById(Presets(), preset.id) == Some(preset)
  {
    PresetsList();
    var p := [Beginner, Intermediate, Expert];
    assert p[1..] == [Intermediate, Expert];
    assert p[1..][1..] == [Expert];
  }

  /** The text remembered for custom settings with no negative number matches the pattern, with the custom id. */
  lemma CustomTextMatches(g: GameSettings)
    requires g.width >= 0 && g.height >= 0 && g.bombs >= 0
    ensures ':' in RememberGameModeCustom(Custom, g)
    ensures MatchStoragePattern(RememberGameModeCustom(Custom, g)) ==
              Some(("custom", DecimalString(g.width), DecimalString(g.height), DecimalString(g.bombs)))
  {
    var w, h, b := DecimalString(g.width), DecimalString(g.height), DecimalString(g.bombs);
    DecimalStringRoundTrip(g.width);
    DecimalStringRoundTrip(g.height);
    DecimalStringRoundTrip(g.bombs);
    var s := RememberGameModeCustom(Custom, g);
    assert s[6] == ':';
    assert NoLineTerminator("custom");
    MatchStoragePatternSpec(s, "custom", w, h, b);
  }

  /** Remembered custom settings with no negative number read back normalised. */
  lemma CustomRoundTrip(g: GameSettings)
    requires g.width >= 0 && g.height >= 0 && g.bombs >= 0
    ensures ParseStorageGameMode(Some(RememberGameModeCustom(Custom, g))) ==
              Some(ModeWithSettings(Custom, NormalizeGameSettings(AsNumbers(g))))
  {
    var s := RememberGameModeCustom(Custom, g);
    CustomTextMatches(g);
    ColonNotModeId(s);
    DecimalStringRoundTrip(g.width);
    DecimalStringRoundTrip(g.height);
    DecimalStringRoundTrip(g.bombs);
    GameModeIdTests("custom");
    ModeLists();
  }

  /** Normalised custom settings read back unchanged. */
  lemma NormalizedCustomRoundTrip(g: GameSettings)
    requires IsNormalized(g)
    ensures ParseStorageGameMode(Some(RememberGameModeCustom(Custom, g))) == Some(ModeWithSettings(Custom, g))
  {
    CustomRoundTrip(g);
    NormalizeKeepsNormalized(g);
  }

  /** None of the mode id literals holds a ':'. */
  lemma ColonNotIdLiteral(value: string)
    requires ':' in value
    ensures value !in {"beginner", "intermediate", "expert", "custom"}
  {
  }

  /** No mode id holds a ':'. */
  lemma ColonNotModeId(value: string)
    requires ':' in value
    ensures !IsGameModeId(value) && !IsGameModePresetId(value) && !IsGameModeCustomId(value)
  {
    ColonNotIdLiteral(value);
    GameModeIdTests(value);
  }

  /** Text that is not a preset id and does not match the pattern with the custom id is rejected. */
  lemma ParseRejectsNonCustom(value: string)
    requires !IsGameModePresetId(value)
    requires MatchStoragePattern(value).None? || !IsGameModeCustomId(MatchStoragePattern(value).value.0)
    ensures ParseStorageGameMode(Some(value)) == None
  {
  }

  /** A preset id with numbers after it is rejected: only the custom id takes numbers. */
  lemma PresetWithNumbersRejected(preset: GameMode, w: string, h: string, b: string)
    requires preset in [Beginner, Intermediate, Expert]
    requires IsCanonicalDecimal(w) && IsCanonicalDecimal(h) && IsCanonicalDecimal(b)
    ensures ParseStorageGameMode(Some(StorageText(preset.id, w, h, b))) == None
  {
    var s := StorageText(preset.id, w, h, b);
    StorageTextShape(preset.id, w, h, b);
    assert s[|preset.id|] == ':';
    ColonNotModeId(s);
    CanonicalHasNo(w, ','); CanonicalHasNo(h, ',');
    CanonicalHasNo(w, ':'); CanonicalHasNo(h, ':'); CanonicalHasNo(b, ':');
    MatchStoragePatternJoined(preset.id, w, h, b);
    GameModeIdTests(preset.id);
    ParseRejectsNonCustom(s);
  }

  /** A number written with a leading zero, such as `custom:09,9,10`, is rejected. */
  lemma LeadingZeroRejected(w: string, h: string, b: string)
    requires AllDigits(w) && AllDigits(h) && AllDigits(b)
    requires 2 <= |w| && w[0] == '0'
    ensures ParseStorageGameMode(Some(StorageText("custom", w, h, b))) == None
  {
    var s := StorageText("custom", w, h, b);
    StorageTextShape("custom", w, h, b);
    assert s[6] == ':';
    ColonNotModeId(s);
    assert ':' !in w && ':' !in h && ':' !in b && ',' !in w && ',' !in h;
    MatchStoragePatternJoined("custom", w, h, b);
    ParseRejectsNonCustom(s);
  }
}
