/** `ShortcutCommands`: the keyboard gestures of the routed commands and
    the text shown for them ("Ctrl+Shift+PageDown"). */
module ShortcutCommands {
  import opened Text

  /** The keys the commands use. `PageDown` is the value `Key.Next` shares,
      and `PageUp` the value `Key.Prior` shares; in both pairs the other
      name is declared first. */
  datatype Key = F1 | F5 | F6 | R | PageUp | PageDown | OtherKey(code: int)

  /** `ModifierKeys`, a flags value, one field per bit: Alt 1, Control 2,
      Shift 4, Windows 8. `ModifierKeysMapping` has the same bits. */
  datatype Modifiers = Modifiers(alt: bool, control: bool, shift: bool, windows: bool)

  const NoModifiers := Modifiers(false, false, false, false)
  const Alt := Modifiers(true, false, false, false)
  const Control := Modifiers(false, true, false, false)
  const Shift := Modifiers(false, false, true, false)
  const Windows := Modifiers(false, false, false, true)

  /** The bitwise or of two flags values. */
  function Or(a: Modifiers, b: Modifiers): Modifiers {
    Modifiers(a.alt || b.alt, a.control || b.control, a.shift || b.shift, a.windows || b.windows)
  }

  datatype KeyGesture = KeyGesture(key: Key, modifiers: Modifiers)

  datatype Command =
    | ReloadCurrentConfiguration
    | HardReloadCurrentConfiguration
    | DeployCurrentConfiguration
    | PreviousConfiguration
    | NextConfiguration
    | MoveConfigurationUp
    | MoveConfigurationDown
    | ShowAbout

  /** The gestures the static constructor registers, one per command. */
  function InputGestures(c: Command): seq<KeyGesture> {
    match c
    case ReloadCurrentConfiguration => [KeyGesture(F5, NoModifiers)]
    case HardReloadCurrentConfiguration => [KeyGesture(R, Control)]
    case DeployCurrentConfiguration => [KeyGesture(F6, NoModifiers)]
    case PreviousConfiguration => [KeyGesture(PageUp, Control)]
    case NextConfiguration => [KeyGesture(PageDown, Control)]
    case MoveConfigurationUp => [KeyGesture(PageUp, Or(Control, Shift))]
    case MoveConfigurationDown => [KeyGesture(PageDown, Or(Control, Shift))]
    case ShowAbout => [KeyGesture(F1, NoModifiers)]
  }

  // ---------------------------------------------------------------------
  // ModifierKeysMapping and its flags

  /** `Enum.GetValues(ModifierKeysMapping)`, in ascending value order. */
  const MappingValues: seq<Modifiers> := [NoModifiers, Alt, Control, Shift, Windows]

  /** The mapping's member names, which is what interpolation prints. */
  function MappingName(v: Modifiers): string {
    if v == Alt then "Alt"
    else if v == Control then "Ctrl"
    else if v == Shift then "Shift"
    else if v == Windows then "Win"
    else "None"
  }

  /** `HasFlag`: every bit of `flag` is set in `input`. */
  predicate HasFlag(input: Modifiers, flag: Modifiers) {
    && (flag.alt ==> input.alt) && (flag.control ==> input.control)
    && (flag.shift ==> input.shift) && (flag.windows ==> input.windows)
  }

  /** `GetFlagsWithExclusion`: the values, in order, that `input` has and
      that are not the excluded one. */
  function GetFlagsWithExclusion(input: Modifiers, values: seq<Modifiers>, exclude: Modifiers): seq<Modifiers>
    decreases |values|
  {
    if |values| == 0 then []
    else
      var rest := GetFlagsWithExclusion(input, values[1..], exclude);
      if values[0] != exclude && HasFlag(input, values[0]) then [values[0]] + rest else rest
  }

  /** The names of a list of flags. */
  function Names(flags: seq<Modifiers>): (r: seq<string>)
    ensures |r| == |flags|
    decreases |flags|
  {
    if |flags| == 0 then [] else [MappingName(flags[0])] + Names(flags[1..])
  }

  /** The names joined into the modifier part of the gesture text. */
  function FlagNames(m: Modifiers): seq<string> {
    Names(GetFlagsWithExclusion(m, MappingValues, NoModifiers))
  }

  /** Reading a name back as its flag; an unknown name adds nothing. */
  function FlagOf(name: string): Modifiers {
    if name == "Alt" then Alt
    else if name == "Ctrl" then Control
    else if name == "Shift" then Shift
    else if name == "Win" then Windows
    else NoModifiers
  }

  /** The flags value a list of names stands for. */
  function ModifiersOf(names: seq<string>): Modifiers
    decreases |names|
  {
    if |names| == 0 then NoModifiers else Or(FlagOf(names[0]), ModifiersOf(names[1..]))
  }

  /** One flag at a time: whether `flag` is kept, then the rest. */
  function KeepFlag(m: Modifiers, flag: Modifiers): seq<Modifiers> {
    if HasFlag(m, flag) then [flag] else []
  }

  function NameIf(m: Modifiers, flag: Modifiers): seq<string> {
    if HasFlag(m, flag) then [MappingName(flag)] else []
  }

  lemma FlagsCons(m: Modifiers, v: Modifiers, rest: seq<Modifiers>)
    requires v != NoModifiers
    ensures GetFlagsWithExclusion(m, [v] + rest, NoModifiers) == KeepFlag(m, v) + GetFlagsWithExclusion(m, rest, NoModifiers)
  {
    assert ([v] + rest)[1..] == rest;
  }

  lemma FlagsOfMappingValues(m: Modifiers)
    ensures GetFlagsWithExclusion(m, MappingValues, NoModifiers)
            == KeepFlag(m, Alt) + (KeepFlag(m, Control) + (KeepFlag(m, Shift) + KeepFlag(m, Windows)))
  {
    var e := NoModifiers;
    var a, c, s, w := KeepFlag(m, Alt), KeepFlag(m, Control), KeepFlag(m, Shift), KeepFlag(m, Windows);
    var l4: seq<Modifiers> := [Windows];
    var l3: seq<Modifiers> := [Shift] + l4;
    var l2: seq<Modifiers> := [Control] + l3;
    var l1: seq<Modifiers> := [Alt] + l2;
    assert MappingValues[1..] == l1;
    FlagsCons(m, Windows, []);
    assert l4 == [Windows] + [];
    assert GetFlagsWithExclusion(m, l4, e) == w;
    FlagsCons(m, Shift, l4);
    assert GetFlagsWithExclusion(m, l3, e) == s + w;
    FlagsCons(m, Control, l3);
    assert GetFlagsWithExclusion(m, l2, e) == c + (s + w);
    FlagsCons(m, Alt, l2);
    assert GetFlagsWithExclusion(m, l1, e) == a + (c + (s + w));
    assert GetFlagsWithExclusion(m, MappingValues, e) == GetFlagsWithExclusion(m, l1, e);
  }

  lemma {:induction false} NamesAppend(a: seq<Modifiers>, b: seq<Modifiers>)
    ensures Names(a + b) == Names(a) + Names(b)
    decreases |a|
  {
    if |a| > 0 {
      assert (a + b)[1..] == a[1..] + b;
      NamesAppend(a[1..], b);
    } else {
      assert a + b == b;
    }
  }

  /** The names are the set bits, lowest first, and never "None". */
  lemma FlagNamesMeaning(m: Modifiers)
    ensures FlagNames(m) == NameIf(m, Alt) + (NameIf(m, Control) + (NameIf(m, Shift) + NameIf(m, Windows)))
    ensures "None" !in FlagNames(m)
    ensures |FlagNames(m)| == 0 <==> m == NoModifiers
  {
    FlagsOfMappingValues(m);
    var a, c, s, w := KeepFlag(m, Alt), KeepFlag(m, Control), KeepFlag(m, Shift), KeepFlag(m, Windows);
    NamesAppend(a, c + (s + w));
    NamesAppend(c, s + w);
    NamesAppend(s, w);
    assert Names(a) == NameIf(m, Alt);
    assert Names(c) == NameIf(m, Control);
    assert Names(s) == NameIf(m, Shift);
    assert Names(w) == NameIf(m, Windows);
    assert m == NoModifiers <==> !HasFlag(m, Alt) && !HasFlag(m, Control) && !HasFlag(m, Shift) && !HasFlag(m, Windows);
  }

  /** Reading the names back gives the modifiers. */
  lemma ModifiersRoundTrip(m: Modifiers)
    ensures ModifiersOf(FlagNames(m)) == m
  {
    FlagNamesMeaning(m);
    var a, c, s, w := NameIf(m, Alt), NameIf(m, Control), NameIf(m, Shift), NameIf(m, Windows);
    ModifiersOfAppend(a, c + (s + w));
    ModifiersOfAppend(c, s + w);
    ModifiersOfAppend(s, w);
    NameIfReadsBack(m, Alt);
    NameIfReadsBack(m, Control);
    NameIfReadsBack(m, Shift);
    NameIfReadsBack(m, Windows);
  }

  /** Each flag's name reads back as that flag. */
  lemma NameIfReadsBack(m: Modifiers, flag: Modifiers)
    requires flag == Alt || flag == Control || flag == Shift || flag == Windows
    ensures ModifiersOf(NameIf(m, flag)) == if HasFlag(m, flag) then flag else NoModifiers
  {
    if HasFlag(m, flag) {
      assert NameIf(m, flag)[1..] == [];
      assert "Alt"[0] == 'A' && "Ctrl"[0] == 'C' && "Shift"[0] == 'S' && "Win"[0] == 'W';
    }
  }

  lemma {:induction false} ModifiersOfAppend(a: seq<string>, b: seq<string>)
    ensures ModifiersOf(a + b) == Or(ModifiersOf(a), ModifiersOf(b))
    decreases |a|
  {
    if |a| > 0 {
      assert (a + b)[1..] == a[1..] + b;
      ModifiersOfAppend(a[1..], b);
    } else {
      assert a + b == b;
    }
  }

  // ---------------------------------------------------------------------
  // The gesture text

  /** `ToString(Key)`: the value `Key.Next` shares is written "PageDown",
      whatever `Enum.ToString`, given as `enumName`, picks for it. */
  function KeyText(k: Key, enumName: Key -> string): (r: string)
    ensures k == PageDown ==> r == "PageDown"
    ensures k != PageDown ==> r == enumName(k)
  {
    if k == PageDown then "PageDown" else enumName(k)
  }

  /** One entry of `GetShortcutKey`. */
  function GestureText(g: KeyGesture, enumName: Key -> string): string {
    if g.modifiers != NoModifiers then Join(FlagNames(g.modifiers), "+") + "+" + KeyText(g.key, enumName)
    else KeyText(g.key, enumName)
  }

  /** `GetShortcutKey`: the text of each gesture of the command. */
  function GetShortcutKey(c: Command, enumName: Key -> string): (r: seq<string>)
    ensures |r| == |InputGestures(c)|
  {
    var gs := InputGestures(c);
    seq(|gs|, i requires 0 <= i < |gs| => GestureText(gs[i], enumName))
  }

  /** Splitting a gesture text at '+' back into modifiers and key. */
  function ParseGesture(text: string): (Modifiers, string) {
    var parts := Split(text, ["+"]);
    (ModifiersOf(parts[..|parts| - 1]), parts[|parts| - 1])
  }

  predicate FreeOfPlus(s: string) {
    forall k :: 0 <= k < |s| ==> s[k] != '+'
  }

  lemma FreeOfPlusNoContains(s: string)
    requires FreeOfPlus(s)
    ensures !Contains(s, "+")
  {
    forall k | 0 <= k <= |s| ensures !OccursAt(s, "+", k) {
      if k < |s| {
        assert s[k..k + 1] == [s[k]];
      }
    }
  }

  /** Pieces without '+' joined with '+' split back into themselves. */
  lemma {:induction false} SplitJoinPlus(parts: seq<string>)
    requires |parts| >= 1
    requires forall i :: 0 <= i < |parts| ==> FreeOfPlus(parts[i])
    ensures Split(Join(parts, "+"), ["+"]) == parts
    decreases |parts|
  {
    if |parts| == 1 {
      FreeOfPlusNoContains(parts[0]);
      SplitWithoutSeparator(parts[0], "+");
    } else {
      var a := parts[0];
      var b := Join(parts[1..], "+");
      forall p | 0 <= p < |a| ensures !StartsWith((a + "+" + b)[p..], "+") {
        assert (a + "+" + b)[p..][0] == a[p];
      }
      SplitPrefix(a, "+", b);
      SplitJoinPlus(parts[1..]);
      assert [a] + parts[1..] == parts;
    }
  }

  /** The gesture text reads back as the gesture's modifiers and key text,
      when the key's text holds no '+'. */
  lemma GestureTextRoundTrip(g: KeyGesture, enumName: Key -> string)
    requires FreeOfPlus(KeyText(g.key, enumName))
    ensures ParseGesture(GestureText(g, enumName)) == (g.modifiers, KeyText(g.key, enumName))
  {
    var key := KeyText(g.key, enumName);
    FlagNamesMeaning(g.modifiers);
    if g.modifiers != NoModifiers {
      var names := FlagNames(g.modifiers);
      var parts := names + [key];
      NamesFreeOfPlus(GetFlagsWithExclusion(g.modifiers, MappingValues, NoModifiers));
      assert forall i :: 0 <= i < |parts| ==> FreeOfPlus(parts[i]) by {
        forall i | 0 <= i < |parts| ensures FreeOfPlus(parts[i]) {
          if i < |names| {
            assert parts[i] == names[i];
          }
        }
      }
      JoinAppendOne(names, key);
      SplitJoinPlus(parts);
      assert Split(GestureText(g, enumName), ["+"]) == parts;
      assert parts[..|parts| - 1] == names;
      ModifiersRoundTrip(g.modifiers);
    } else {
      FreeOfPlusNoContains(key);
      SplitWithoutSeparator(key, "+");
    }
  }

  lemma MappingNameFreeOfPlus(v: Modifiers)
    ensures FreeOfPlus(MappingName(v))
  {
  }

  lemma {:induction false} NamesFreeOfPlus(flags: seq<Modifiers>)
    ensures forall i :: 0 <= i < |Names(flags)| ==> FreeOfPlus(Names(flags)[i])
    decreases |flags|
  {
    if |flags| > 0 {
      NamesFreeOfPlus(flags[1..]);
      MappingNameFreeOfPlus(flags[0]);
      var r := Names(flags);
      assert forall i :: 1 <= i < |r| ==> r[i] == Names(flags[1..])[i - 1];
    }
  }

  lemma {:induction false} JoinAppendOne(parts: seq<string>, last: string)
    requires |parts| >= 1
    ensures Join(parts + [last], "+") == Join(parts, "+") + "+" + last
    decreases |parts|
  {
    if |parts| > 1 {
      assert (parts + [last])[1..] == parts[1..] + [last];
      JoinAppendOne(parts[1..], last);
    }
  }

  /** The names `Enum.ToString` gives the keys the table uses, when it
      picks the first declared name of a shared value: "Prior" for the
      `PageUp` value and "Next" for the `PageDown` value. */
  predicate FirstDeclaredNames(enumName: Key -> string) {
    && enumName(F1) == "F1" && enumName(F5) == "F5" && enumName(F6) == "F6"
    && enumName(R) == "R" && enumName(PageUp) == "Prior" && enumName(PageDown) == "Next"
  }

  /** The shortcut texts of the commands without modifiers. */
  lemma PlainShortcutTexts(enumName: Key -> string)
    requires FirstDeclaredNames(enumName)
    ensures GetShortcutKey(ReloadCurrentConfiguration, enumName) == ["F5"]
    ensures GetShortcutKey(DeployCurrentConfiguration, enumName) == ["F6"]
    ensures GetShortcutKey(ShowAbout, enumName) == ["F1"]
  {
    OneGesture(ReloadCurrentConfiguration, enumName);
    OneGesture(DeployCurrentConfiguration, enumName);
    OneGesture(ShowAbout, enumName);
  }

  /** The shortcut texts of the commands with Control. Only the shared
      `Next` value is renamed, so "previous" reads with the first declared
      name of its key, "Prior". */
  lemma ControlShortcutTexts(enumName: Key -> string)
    requires FirstDeclaredNames(enumName)
    ensures GetShortcutKey(HardReloadCurrentConfiguration, enumName) == ["Ctrl+R"]
    ensures GetShortcutKey(PreviousConfiguration, enumName) == ["Ctrl+Prior"]
    ensures GetShortcutKey(NextConfiguration, enumName) == ["Ctrl+PageDown"]
  {
    OneGesture(HardReloadCurrentConfiguration, enumName);
    OneGesture(PreviousConfiguration, enumName);
    OneGesture(NextConfiguration, enumName);
    CtrlText(R, enumName);
    CtrlText(PageUp, enumName);
    CtrlText(PageDown, enumName);
    assert "Ctrl+" + "R" == "Ctrl+R";
    assert "Ctrl+" + "Prior" == "Ctrl+Prior";
    assert "Ctrl+" + "PageDown" == "Ctrl+PageDown";
  }

  /** The shortcut texts of the move commands, with Control and Shift; the
      key of "move down" reads "PageDown" although the enum name is "Next",
      while the key of "move up" keeps its enum name "Prior". */
  lemma MoveShortcutTexts(enumName: Key -> string)
    requires FirstDeclaredNames(enumName)
    ensures GetShortcutKey(MoveConfigurationUp, enumName) == ["Ctrl+Shift+Prior"]
    ensures GetShortcutKey(MoveConfigurationDown, enumName) == ["Ctrl+Shift+PageDown"]
  {
    OneGesture(MoveConfigurationUp, enumName);
    OneGesture(MoveConfigurationDown, enumName);
    CtrlShiftText(PageUp, enumName);
    CtrlShiftText(PageDown, enumName);
    assert "Ctrl+Shift+" + "Prior" == "Ctrl+Shift+Prior";
    assert "Ctrl+Shift+" + "PageDown" == "Ctrl+Shift+PageDown";
  }

  lemma OneGesture(c: Command, enumName: Key -> string)
    ensures GetShortcutKey(c, enumName) == [GestureText(InputGestures(c)[0], enumName)]
  {
  }

  lemma CtrlText(k: Key, enumName: Key -> string)
    ensures GestureText(KeyGesture(k, Control), enumName) == "Ctrl+" + KeyText(k, enumName)
  {
    FlagNamesMeaning(Control);
    assert FlagNames(Control) == ["Ctrl"];
  }

  lemma CtrlShiftText(k: Key, enumName: Key -> string)
    ensures GestureText(KeyGesture(k, Or(Control, Shift)), enumName) == "Ctrl+Shift+" + KeyText(k, enumName)
  {
    FlagNamesMeaning(Or(Control, Shift));
    var names := FlagNames(Or(Control, Shift));
    assert names == ["Ctrl", "Shift"];
    assert Join(names, "+") == "Ctrl+Shift" by {
      assert names[1..] == ["Shift"];
    }
  }
}
