/** The theme switch and the preferences script.js restores at load time
    from `localStorage`, modelled as a map from keys to stored strings. */
module Settings {
  import opened Wrappers

  /** `toggleTheme`: the attribute's value, or `light` when it is missing or
      empty, is flipped; anything but `dark` counts as light. */
  function ToggleTheme(attribute: Option<string>): (theme: string)
    ensures theme == "dark" || theme == "light"
    ensures theme == "dark" <==> attribute != Some("dark")
  {
    var current := if attribute.Some? && attribute.value != "" then attribute.value else "light";
    if current == "dark" then "light" else "dark"
  }

  /** Toggling twice brings back `dark` from `dark` and `light` from
      anything else. */
  lemma {:induction false} ToggleTwice(attribute: Option<string>)
    ensures ToggleTheme(Some(ToggleTheme(attribute))) == (if attribute == Some("dark") then "dark" else "light")
  {
  }

  const ThemeKey := "markdownRendererTheme"
  const AutoRenderKey := "markdownRendererAutoRender"
  const TextDirKey := "markdownRendererTextDir"
  const InlineCodeDirKey := "markdownRendererInlineCodeDir"
  const CodeDirKey := "markdownRendererCodeDir"
  const FullHeightKey := "markdownRendererFullHeightMode"
  const InputVisibleKey := "markdownRendererInputVisible"
  const InputContentKey := "markdownInputContent"

  datatype Preferences = Preferences(
    theme: string,
    autoRender: bool,
    textDir: string,
    inlineCodeDir: string,
    codeDir: string,
    fullHeight: bool,
    inputVisible: bool,
    content: Option<string>)

  /** `localStorage.getItem(key) || fallback`: a missing or empty value
      gives the fallback. */
  function StoredOr(store: map<string, string>, key: string, fallback: string): (r: string)
    ensures key in store && store[key] != "" ==> r == store[key]
    ensures key !in store || store[key] == "" ==> r == fallback
  {
    if key in store && store[key] != "" then store[key] else fallback
  }

  /** A stored flag: `'true'` is true; a missing one gives `absent`; any
      other stored value is false. */
  function StoredFlag(store: map<string, string>, key: string, absent: bool): (r: bool)
    ensures r <==> (key in store && store[key] == "true") || (key !in store && absent)
  {
    if key in store then store[key] == "true" else absent
  }

  /** The load-time decoding: theme `dark`, auto-render on, all directions
      `ltr`, full-height off and the input visible unless stored otherwise;
      the saved Markdown is used when it is non-empty. */
  function LoadPreferences(store: map<string, string>): (p: Preferences)
    ensures p.theme != "" && p.textDir != "" && p.inlineCodeDir != "" && p.codeDir != ""
    ensures p.theme == (if ThemeKey in store && store[ThemeKey] != "" then store[ThemeKey] else "dark")
    ensures p.textDir == (if TextDirKey in store && store[TextDirKey] != "" then store[TextDirKey] else "ltr")
    ensures p.inlineCodeDir ==
      (if InlineCodeDirKey in store && store[InlineCodeDirKey] != "" then store[InlineCodeDirKey] else "ltr")
    ensures p.codeDir == (if CodeDirKey in store && store[CodeDirKey] != "" then store[CodeDirKey] else "ltr")
    ensures p.autoRender <==> AutoRenderKey !in store || store[AutoRenderKey] == "true"
    ensures p.fullHeight <==> FullHeightKey in store && store[FullHeightKey] == "true"
    ensures p.inputVisible <==> InputVisibleKey !in store || store[InputVisibleKey] == "true"
    ensures p.content.Some? <==> InputContentKey in store && store[InputContentKey] != ""
    ensures p.content.Some? ==> p.content.value == store[InputContentKey]
  {
    Preferences(
      StoredOr(store, ThemeKey, "dark"),
      StoredFlag(store, AutoRenderKey, true),
      StoredOr(store, TextDirKey, "ltr"),
      StoredOr(store, InlineCodeDirKey, "ltr"),
      StoredOr(store, CodeDirKey, "ltr"),
      StoredFlag(store, FullHeightKey, false),
      StoredFlag(store, InputVisibleKey, true),
      if InputContentKey in store && store[InputContentKey] != "" then Some(store[InputContentKey]) else None)
  }

  /** `String(flag)`, as `setItem` stores a boolean. */
  function FlagString(b: bool): string {
    if b then "true" else "false"
  }

  /** What the setters write back: `applyTheme`, `updateAutoRenderState`,
      the three direction setters, the full-height and input-visibility
      switches and the debounced content save. */
  function SavePreferences(store: map<string, string>, p: Preferences): (r: map<string, string>)
    ensures r.Keys == store.Keys + {ThemeKey, AutoRenderKey, TextDirKey, InlineCodeDirKey, CodeDirKey,
                                    FullHeightKey, InputVisibleKey} + (if p.content.Some? then {InputContentKey} else {})
  {
    var saved := store[ThemeKey := p.theme][AutoRenderKey := FlagString(p.autoRender)]
      [TextDirKey := p.textDir][InlineCodeDirKey := p.inlineCodeDir][CodeDirKey := p.codeDir]
      [FullHeightKey := FlagString(p.fullHeight)][InputVisibleKey := FlagString(p.inputVisible)];
    if p.content.Some? then saved[InputContentKey := p.content.value] else saved
  }

  /** A fresh browser gets the defaults. */
  lemma {:induction false} EmptyStoreDefaults()
    ensures LoadPreferences(map[]) == Preferences("dark", true, "ltr", "ltr", "ltr", false, true, None)
  {
  }

  /** Saving preferences and loading them again gives them back, as long as
      the strings saved are not empty and the content is. */
  lemma {:induction false} SaveLoadRoundTrip(store: map<string, string>, p: Preferences)
    requires p.theme != "" && p.textDir != "" && p.inlineCodeDir != "" && p.codeDir != ""
    requires p.content != Some("")
    requires p.content.None? ==> InputContentKey !in store || store[InputContentKey] == ""
    ensures LoadPreferences(SavePreferences(store, p)) == p
  {
    var r := SavePreferences(store, p);
    assert r[ThemeKey] == p.theme;
    assert r[AutoRenderKey] == FlagString(p.autoRender);
    assert r[TextDirKey] == p.textDir;
    assert r[InlineCodeDirKey] == p.inlineCodeDir;
    assert r[CodeDirKey] == p.codeDir;
    assert r[FullHeightKey] == FlagString(p.fullHeight);
    assert r[InputVisibleKey] == FlagString(p.inputVisible);
  }

  /** Loading, writing the loaded preferences back and loading again gives
      the same preferences: a page reload does not drift. */
  lemma {:induction false} ReloadStable(store: map<string, string>)
    ensures var p := LoadPreferences(store);
      LoadPreferences(SavePreferences(store, p)) == p
  {
    SaveLoadRoundTrip(store, LoadPreferences(store));
  }
}
