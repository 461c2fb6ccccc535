/** The preference store: a DataStore of named keys, each holding a string or a boolean.
    Enum settings are stored as the constant's name and parsed back with `valueOf`; an
    unset key reads as its default. */
module Preferences {
  import opened Outcomes

  datatype Theme = Light | Dark | System
  datatype FontSize = Small | Medium | Large | XLarge
  datatype AccentColor = Purple | Blue | Green | Orange | Red

  function ThemeName(t: Theme): string {
    match t
    case Light => "LIGHT"
    case Dark => "DARK"
    case System => "SYSTEM"
  }

  function FontSizeName(f: FontSize): string {
    match f
    case Small => "SMALL"
    case Medium => "MEDIUM"
    case Large => "LARGE"
    case XLarge => "XLARGE"
  }

  function AccentColorName(a: AccentColor): string {
    match a
    case Purple => "PURPLE"
    case Blue => "BLUE"
    case Green => "GREEN"
    case Orange => "ORANGE"
    case Red => "RED"
  }

  /** `Theme.valueOf`: None where Kotlin throws. */
  function ThemeValueOf(s: string): (r: Option<Theme>)
    ensures r.Some? ==> ThemeName(r.value) == s
    ensures r.None? <==> forall t :: ThemeName(t) != s
  {
    if s == "LIGHT" then Some(Light)
    else if s == "DARK" then Some(Dark)
    else if s == "SYSTEM" then Some(System)
    else None
  }

  function FontSizeValueOf(s: string): (r: Option<FontSize>)
    ensures r.Some? ==> FontSizeName(r.value) == s
    ensures r.None? <==> forall f :: FontSizeName(f) != s
  {
    if s == "SMALL" then Some(Small)
    else if s == "MEDIUM" then Some(Medium)
    else if s == "LARGE" then Some(Large)
    else if s == "XLARGE" then Some(XLarge)
    else None
  }

  function AccentColorValueOf(s: string): (r: Option<AccentColor>)
    ensures r.Some? ==> AccentColorName(r.value) == s
    ensures r.None? <==> forall a :: AccentColorName(a) != s
  {
    if s == "PURPLE" then Some(Purple)
    else if s == "BLUE" then Some(Blue)
    else if s == "GREEN" then Some(Green)
    else if s == "ORANGE" then Some(Orange)
    else if s == "RED" then Some(Red)
    else None
  }

  /** A stored preference value; a key holds one type. */
  datatype PrefValue = StringValue(s: string) | BoolValue(b: bool)

  type Store = map<string, PrefValue>

  const ThemeKey := "theme"
  const NotificationTimeKey := "notification_time"
  const NotificationsEnabledKey := "notifications_enabled"
  const FontSizeKey := "font_size"
  const AccentColorKey := "accent_color"
  const NotificationEnabledKey := "notification_enabled"

  const DefaultTheme := "SYSTEM"
  const DefaultNotificationTime := "09:00"
  const DefaultFontSize := "MEDIUM"
  const DefaultAccentColor := "PURPLE"

  /** `preferences[key] ?: default` for a string key; a boolean under that name fails the cast. */
  function ReadString(p: Store, key: string, default: string): Result<string> {
    if key !in p then Ok(default)
    else match p[key]
      case StringValue(s) => Ok(s)
      case BoolValue(_) => Fail("java.lang.Boolean cannot be cast to java.lang.String")
  }

  /** `preferences[key] ?: default` for a boolean key. */
  function ReadBool(p: Store, key: string, default: bool): Result<bool> {
    if key !in p then Ok(default)
    else match p[key]
      case BoolValue(b) => Ok(b)
      case StringValue(_) => Fail("java.lang.String cannot be cast to java.lang.Boolean")
  }

  function ReadTheme(p: Store): Result<Theme> {
    match ReadString(p, ThemeKey, DefaultTheme)
    case Err(m) => Err(m)
    case Ok(s) =>
      match ThemeValueOf(s)
      case Some(t) => Ok(t)
      case None => Fail("No enum constant com.example.quotevault.data.model.Theme." + s)
  }

  function ReadFontSize(p: Store): Result<FontSize> {
    match ReadString(p, FontSizeKey, DefaultFontSize)
    case Err(m) => Err(m)
    case Ok(s) =>
      match FontSizeValueOf(s)
      case Some(f) => Ok(f)
      case None => Fail("No enum constant com.example.quotevault.data.model.FontSize." + s)
  }

  function ReadAccentColor(p: Store): Result<AccentColor> {
    match ReadString(p, AccentColorKey, DefaultAccentColor)
    case Err(m) => Err(m)
    case Ok(s) =>
      match AccentColorValueOf(s)
      case Some(a) => Ok(a)
      case None => Fail("No enum constant com.example.quotevault.data.model.AccentColor." + s)
  }

  /** What the setters ever write: each known key holds a value of its own type, and the
      enum keys hold enum names. */
  ghost predicate WrittenBySetters(p: Store) {
    && (ThemeKey in p ==> p[ThemeKey].StringValue? && ThemeValueOf(p[ThemeKey].s).Some?)
    && (FontSizeKey in p ==> p[FontSizeKey].StringValue? && FontSizeValueOf(p[FontSizeKey].s).Some?)
    && (AccentColorKey in p ==> p[AccentColorKey].StringValue? && AccentColorValueOf(p[AccentColorKey].s).Some?)
    && (NotificationTimeKey in p ==> p[NotificationTimeKey].StringValue?)
    && (NotificationsEnabledKey in p ==> p[NotificationsEnabledKey].BoolValue?)
    && (NotificationEnabledKey in p ==> p[NotificationEnabledKey].BoolValue?)
  }

  /** On a store written only through the setters no getter fails: `valueOf` always meets a name
      a setter stored. */
  lemma GettersNeverFail(p: Store)
    requires WrittenBySetters(p)
    ensures ReadTheme(p).Ok? && ReadFontSize(p).Ok? && ReadAccentColor(p).Ok?
    ensures ReadString(p, NotificationTimeKey, DefaultNotificationTime).Ok?
    ensures ReadBool(p, NotificationsEnabledKey, true).Ok? && ReadBool(p, NotificationEnabledKey, true).Ok?
  {
  }

  /** An empty store reads as the defaults: SYSTEM, "09:00", MEDIUM, PURPLE, and both
      notification flags on. */
  lemma UnsetKeysReadAsDefaults()
    ensures ReadTheme(map[]) == Ok(System)
    ensures ReadString(map[], NotificationTimeKey, DefaultNotificationTime) == Ok("09:00")
    ensures ReadFontSize(map[]) == Ok(Medium)
    ensures ReadAccentColor(map[]) == Ok(Purple)
    ensures ReadBool(map[], NotificationsEnabledKey, true) == Ok(true)
    ensures ReadBool(map[], NotificationEnabledKey, true) == Ok(true)
  {
  }

  /** The two notification flags live under different key names, so writing one never
      changes what the other getter reads. */
  lemma NotificationFlagsAreIndependent(p: Store, b: bool)
    ensures ReadBool(p[NotificationsEnabledKey := BoolValue(b)], NotificationEnabledKey, true)
         == ReadBool(p, NotificationEnabledKey, true)
    ensures ReadBool(p[NotificationEnabledKey := BoolValue(b)], NotificationsEnabledKey, true)
         == ReadBool(p, NotificationsEnabledKey, true)
  {
  }

  class UserPreferencesRepository {
    var prefs: Store

    constructor ()
      ensures prefs == map[] && WrittenBySetters(prefs)
    {
      prefs := map[];
    }

    // ------------------------------------------------------------ getters

    function GetTheme(): (r: Result<Theme>)
      reads this
      ensures WrittenBySetters(prefs) ==> r.Ok?
      ensures ThemeKey !in prefs ==> r == Ok(System)
    {
      ReadTheme(prefs)
    }

    function GetNotificationTime(): (r: Result<string>)
      reads this
      ensures WrittenBySetters(prefs) ==> r.Ok?
      ensures NotificationTimeKey !in prefs ==> r == Ok("09:00")
    {
      ReadString(prefs, NotificationTimeKey, DefaultNotificationTime)
    }

    function GetFontSize(): (r: Result<FontSize>)
      reads this
      ensures WrittenBySetters(prefs) ==> r.Ok?
      ensures FontSizeKey !in prefs ==> r == Ok(Medium)
    {
      ReadFontSize(prefs)
    }

    function GetAccentColor(): (r: Result<AccentColor>)
      reads this
      ensures WrittenBySetters(prefs) ==> r.Ok?
      ensures AccentColorKey !in prefs ==> r == Ok(Purple)
    {
      ReadAccentColor(prefs)
    }

    /** Reads the "notifications_enabled" key. */
    function IsNotificationsEnabled(): (r: Result<bool>)
      reads this
      ensures WrittenBySetters(prefs) ==> r.Ok?
      ensures NotificationsEnabledKey !in prefs ==> r == Ok(true)
    {
      ReadBool(prefs, NotificationsEnabledKey, true)
    }

    /** Reads the "notification_enabled" key (no s). */
    function IsNotificationEnabled(): (r: Result<bool>)
      reads this
      ensures WrittenBySetters(prefs) ==> r.Ok?
      ensures NotificationEnabledKey !in prefs ==> r == Ok(true)
    {
      ReadBool(prefs, NotificationEnabledKey, true)
    }

    // ------------------------------------------------------------ setters

    method SetTheme(theme: Theme)
      modifies this
      ensures prefs == old(prefs)[ThemeKey := StringValue(ThemeName(theme))]
      ensures GetTheme() == Ok(theme)
      ensures WrittenBySetters(old(prefs)) ==> WrittenBySetters(prefs)
    {
      prefs := prefs[ThemeKey := StringValue(ThemeName(theme))];
    }

    method SetNotificationTime(time: string)
      modifies this
      ensures prefs == old(prefs)[NotificationTimeKey := StringValue(time)]
      ensures GetNotificationTime() == Ok(time)
      ensures WrittenBySetters(old(prefs)) ==> WrittenBySetters(prefs)
    {
      prefs := prefs[NotificationTimeKey := StringValue(time)];
    }

    method SetFontSize(fontSize: FontSize)
      modifies this
      ensures prefs == old(prefs)[FontSizeKey := StringValue(FontSizeName(fontSize))]
      ensures GetFontSize() == Ok(fontSize)
      ensures WrittenBySetters(old(prefs)) ==> WrittenBySetters(prefs)
    {
      prefs := prefs[FontSizeKey := StringValue(FontSizeName(fontSize))];
    }

    method SetAccentColor(accentColor: AccentColor)
      modifies this
      ensures prefs == old(prefs)[AccentColorKey := StringValue(AccentColorName(accentColor))]
      ensures GetAccentColor() == Ok(accentColor)
      ensures WrittenBySetters(old(prefs)) ==> WrittenBySetters(prefs)
    {
      prefs := prefs[AccentColorKey := StringValue(AccentColorName(accentColor))];
    }

    /** Writes "notifications_enabled"; the other flag's getter is unaffected. */
    method SetNotificationsEnabled(enabled: bool)
      modifies this
      ensures prefs == old(prefs)[NotificationsEnabledKey := BoolValue(enabled)]
      ensures IsNotificationsEnabled() == Ok(enabled)
      ensures IsNotificationEnabled() == old(IsNotificationEnabled())
      ensures WrittenBySetters(old(prefs)) ==> WrittenBySetters(prefs)
    {
      prefs := prefs[NotificationsEnabledKey := BoolValue(enabled)];
    }

    /** Writes "notification_enabled"; the other flag's getter is unaffected. */
    method SetNotificationEnabled(enabled: bool)
      modifies this
      ensures prefs == old(prefs)[NotificationEnabledKey := BoolValue(enabled)]
      ensures IsNotificationEnabled() == Ok(enabled)
      ensures IsNotificationsEnabled() == old(IsNotificationsEnabled())
      ensures WrittenBySetters(old(prefs)) ==> WrittenBySetters(prefs)
    {
      prefs := prefs[NotificationEnabledKey := BoolValue(enabled)];
    }
  }
}
