/**
 * The plugin's settings (main.ts): `loadSettings` shallow-merges the stored record over
 * `DEFAULT_SETTINGS`, and `saveSettings` stores the current record as it is.
 * A settings record is a map from property name to value; `loadData()` yields the stored
 * record, or `null` (None) when nothing has been stored yet.
 */
module Settings {
  import opened Wrappers

  /** `DEFAULT_SETTINGS`: one property, `mySetting`, with value "default". */
  const DefaultSettings: map<string, string> := map["mySetting" := "default"]

  /** `Object.assign({}, DEFAULT_SETTINGS, loaded)`: later sources override earlier ones; `null` adds nothing. */
  function LoadSettings(loaded: Option<map<string, string>>): (settings: map<string, string>)
    ensures forall key :: key in settings <==> key in DefaultSettings || (loaded.Some? && key in loaded.value)
    ensures forall key :: loaded.Some? && key in loaded.value ==> key in settings && settings[key] == loaded.value[key]
    ensures forall key :: key in DefaultSettings && !(loaded.Some? && key in loaded.value) ==>
      key in settings && settings[key] == DefaultSettings[key]
  {
    match loaded
    case None => DefaultSettings
    case Some(data) => DefaultSettings + data
  }

  /** Every default property is present after loading, whatever was stored. */
  lemma DefaultsAlwaysPresent(loaded: Option<map<string, string>>)
    ensures DefaultSettings.Keys <= LoadSettings(loaded).Keys
    ensures "mySetting" in LoadSettings(loaded)
  {
  }

  /** Saving the loaded settings and loading them again gives the same settings. */
  lemma SaveThenLoad(loaded: Option<map<string, string>>)
    ensures LoadSettings(Some(LoadSettings(loaded))) == LoadSettings(loaded)
  {
  }
}
