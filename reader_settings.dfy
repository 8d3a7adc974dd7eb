/**
 * `ReaderTheme` and `ReaderPreferences`: the reader's font size and colour theme, kept in the
 * `UserDefaults` key–value store under "readerFontSize" and "readerTheme".
 */
module ReaderSettings {
  import opened Wrappers
  import opened Strings

  /** A value in the defaults store: an integer, a string, or anything else (a date, data, ...). */
  datatype StoredValue = IntValue(n: int) | StringValue(s: string) | OtherValue

  const FontSizeKey: string := "readerFontSize"
  const ThemeKey: string := "readerTheme"
  const DefaultFontSize: int := 18

  /** `integer(forKey:)`: an integer as stored, a string read as an `Int`, and 0 for anything else or no value. */
  function IntegerFor(values: map<string, StoredValue>, key: string): int {
    if key !in values then 0
    else
      match values[key]
      case IntValue(n) => n
      case StringValue(s) => ParseInt(s).GetOr(0)
      case OtherValue => 0
  }

  /** `string(forKey:)`: a string as stored, an integer as its decimal text, and nil otherwise. */
  function StringFor(values: map<string, StoredValue>, key: string): Option<string> {
    if key !in values then None
    else
      match values[key]
      case IntValue(n) => Some(IntToString(n))
      case StringValue(s) => Some(s)
      case OtherValue => None
  }

  // ---------------------------------------------------------------------------
  // ReaderTheme
  // ---------------------------------------------------------------------------

  datatype ReaderTheme = Light | Sepia | Dark

  /** `rawValue`: the page background colour. */
  function RawValue(t: ReaderTheme): string {
    match t
    case Light => "white"
    case Sepia => "#f4ecd8"
    case Dark => "#1a1a1a"
  }

  /** `ReaderTheme(rawValue:)`. */
  function ThemeFromRaw(raw: string): Option<ReaderTheme> {
    if raw == "white" then Some(Light)
    else if raw == "#f4ecd8" then Some(Sepia)
    else if raw == "#1a1a1a" then Some(Dark)
    else None
  }

  /** `textColor`: light text on the dark theme, dark text on the others. */
  function TextColor(t: ReaderTheme): string {
    if t == Dark then "#f5f5f5" else "#2c2c2c"
  }

  /** Raw values and themes are in one-to-one correspondence. */
  lemma ThemeRawRoundTrip(t: ReaderTheme, raw: string)
    ensures ThemeFromRaw(RawValue(t)) == Some(t)
    ensures ThemeFromRaw(raw) == Some(t) <==> raw == RawValue(t)
  {
  }

  /** The text colour is never the background colour of its theme. */
  lemma TextColorReadable(t: ReaderTheme)
    ensures TextColor(t) != RawValue(t)
    ensures TextColor(t) == "#f5f5f5" <==> t == Dark
    ensures t != Dark ==> TextColor(t) == "#2c2c2c"
  {
  }

  // ---------------------------------------------------------------------------
  // ReaderPreferences, as functions of the stored values
  // ---------------------------------------------------------------------------

  /** The `fontSize` getter: the stored integer, with 0 (which includes no value) read as 18. */
  function FontSizeIn(values: map<string, StoredValue>): (r: int)
    ensures r != 0
    ensures IntegerFor(values, FontSizeKey) != 0 ==> r == IntegerFor(values, FontSizeKey)
    ensures IntegerFor(values, FontSizeKey) == 0 ==> r == DefaultFontSize
  {
    var stored := IntegerFor(values, FontSizeKey);
    if stored == 0 then DefaultFontSize else stored
  }

  /** The `theme` getter: the stored raw value's theme, or sepia when there is none or it is unknown. */
  function ThemeIn(values: map<string, StoredValue>): ReaderTheme {
    var raw := StringFor(values, ThemeKey).GetOr("sepia");
    ThemeFromRaw(raw).GetOr(Sepia)
  }

  /**
   * With no theme stored, or a stored value that is not text, the theme is sepia; the default
   * text "sepia" is not itself a raw value.
   */
  lemma ThemeDefaultsToSepia(values: map<string, StoredValue>)
    ensures ThemeKey !in values ==> ThemeIn(values) == Sepia
    ensures ThemeFromRaw("sepia") == None
    ensures StringFor(values, ThemeKey).None? ==> ThemeIn(values) == Sepia
    ensures StringFor(values, ThemeKey).Some? && ThemeFromRaw(StringFor(values, ThemeKey).value).None? ==> ThemeIn(values) == Sepia
  {
  }

  /** A stored raw value reads back as its theme. */
  lemma ThemeReadsBack(values: map<string, StoredValue>, t: ReaderTheme)
    ensures ThemeIn(values[ThemeKey := StringValue(RawValue(t))]) == t
  {
    ThemeRawRoundTrip(t, RawValue(t));
  }

  /** A stored font size reads back, except 0, which reads as 18. */
  lemma FontSizeReadsBack(values: map<string, StoredValue>, n: int)
    ensures FontSizeIn(values[FontSizeKey := IntValue(n)]) == if n == 0 then DefaultFontSize else n
  {
  }

  /** Writing either setting leaves the other as it was. */
  lemma SettingsIndependent(values: map<string, StoredValue>, v: StoredValue)
    ensures ThemeIn(values[FontSizeKey := v]) == ThemeIn(values)
    ensures FontSizeIn(values[ThemeKey := v]) == FontSizeIn(values)
  {
    assert FontSizeKey != ThemeKey;
  }

  // ---------------------------------------------------------------------------
  // The store and the preferences object
  // ---------------------------------------------------------------------------

  /** `UserDefaults.standard`, reduced to the values it holds. */
  class UserDefaults {
    var values: map<string, StoredValue>

    constructor (values: map<string, StoredValue>)
      ensures this.values == values
    {
      this.values := values;
    }

    /** `set(_:forKey:)`. */
    method Set(key: string, v: StoredValue)
      modifies this
      ensures values == old(values)[key := v]
    {
      values := values[key := v];
    }
  }

  class ReaderPreferences {
    const defaults: UserDefaults

    constructor (defaults: UserDefaults)
      ensures this.defaults == defaults
    {
      this.defaults := defaults;
    }

    function FontSize(): int
      reads defaults
    {
      FontSizeIn(defaults.values)
    }

    function Theme(): ReaderTheme
      reads defaults
    {
      ThemeIn(defaults.values)
    }

    /** The `fontSize` setter: writes only "readerFontSize". */
    method SetFontSize(n: int)
      modifies defaults
      ensures defaults.values == old(defaults.values)[FontSizeKey := IntValue(n)]
      ensures FontSize() == (if n == 0 then DefaultFontSize else n) && Theme() == old(Theme())
    {
      FontSizeReadsBack(defaults.values, n);
      SettingsIndependent(defaults.values, IntValue(n));
      defaults.Set(FontSizeKey, IntValue(n));
    }

    /** The `theme` setter: writes only "readerTheme", as the raw value. */
    method SetTheme(t: ReaderTheme)
      modifies defaults
      ensures defaults.values == old(defaults.values)[ThemeKey := StringValue(RawValue(t))]
      ensures Theme() == t && FontSize() == old(FontSize())
    {
      ThemeReadsBack(defaults.values, t);
      SettingsIndependent(defaults.values, StringValue(RawValue(t)));
      defaults.Set(ThemeKey, StringValue(RawValue(t)));
    }
  }
}
