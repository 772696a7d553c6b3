/** Menu.ShowMenu's choice: the name of the pressed key parsed as a
    Menu.KeyPress member, or 0 when it does not name one. */
module Menu {
  import opened HotKeys

  /** The members of Menu.KeyPress, and Unselected for the value 0 that
      ShowMenu returns when parsing fails (0 is not a named member). */
  datatype KeyPress = F1 | F2 | F3 | F10 | Backspace | Unselected

  /** The enum's underlying values. */
  function Value(p: KeyPress): (v: int)
    ensures -5 <= v <= 0
    ensures v == 0 <==> p == Unselected
  {
    match p
    case F1 => -1
    case F2 => -2
    case F3 => -3
    case F10 => -4
    case Backspace => -5
    case Unselected => 0
  }

  /** The five members and the fallback have pairwise different values. */
  lemma ValueInjective(p: KeyPress, q: KeyPress)
    ensures Value(p) == Value(q) <==> p == q
  {
  }

  /** The name of a member, as Enum.TryParse matches it. */
  function Name(p: KeyPress): string
    requires p != Unselected
  {
    match p
    case F1 => "F1"
    case F2 => "F2"
    case F3 => "F3"
    case F10 => "F10"
    case Backspace => "Backspace"
  }

  /** The key names that select a menu option. */
  const MenuKeyNames: set<Key> := {"F1", "F2", "F3", "F10", "Backspace"}

  /** Enum.TryParse(typeof(KeyPress), keyName, out keyPress), falling back to 0. */
  function ParseKeyPress(keyName: Key): (p: KeyPress)
    ensures p != Unselected ==> Name(p) == keyName
    ensures p == Unselected <==> keyName !in MenuKeyNames
  {
    if keyName == "F1" then F1
    else if keyName == "F2" then F2
    else if keyName == "F3" then F3
    else if keyName == "F10" then F10
    else if keyName == "Backspace" then Backspace
    else Unselected
  }

  /** ShowMenu returns the value 0 exactly for a key that names no option,
      and a negative enum value for each of the five option keys. */
  lemma ParseValue(keyName: Key)
    ensures Value(ParseKeyPress(keyName)) == 0 <==> keyName !in MenuKeyNames
    ensures keyName in MenuKeyNames ==> Value(ParseKeyPress(keyName)) < 0
  {
  }

  /** Each option's own key selects it. */
  lemma ParseName(p: KeyPress)
    requires p != Unselected
    ensures ParseKeyPress(Name(p)) == p
  {
  }

  /** The digit keys the menu text advertises (ConsoleKey D1 to D5) select
      nothing, and neither do the bare digit characters. */
  lemma AdvertisedDigitsAreUnselected(keyName: Key)
    requires keyName in {"D1", "D2", "D3", "D4", "D5", "1", "2", "3", "4", "5"}
    ensures ParseKeyPress(keyName) == Unselected
  {
  }
}
