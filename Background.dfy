/** The background worker: storage set-up on install, adding the selected text through the
    context menu, and the request and error rules of the translation call. */
module Background {
  import opened Wrappers
  import opened Strings
  import opened Store
  import opened Popup

  // ---------------------------------------------------------------- install

  /** What `onInstalled` writes when no settings exist: empty languages and no lists. */
  const InitialSettings := StoredSettings(Some(""), Some(""), None, None)

  /** `onInstalled`: settings and word lists are initialised only when no settings exist. */
  method OnInstalled(store: LocalStore)
    modifies store
    ensures old(store.settings).Some? ==> store.settings == old(store.settings) && store.wordLists == old(store.wordLists)
    ensures old(store.settings).None? ==> store.settings == Some(InitialSettings) && store.wordLists == Some(map[])
    ensures store.isEnabled == old(store.isEnabled)
  {
    if store.settings.None? {
      store.settings := Some(InitialSettings);
      store.wordLists := Some(map[]);
    }
  }

  /** The settings a fresh install writes select the pair "-", with both languages empty. */
  lemma InstalledPairKey()
    ensures SettingsPairKey(InitialSettings) == "-"
  {
  }

  // ---------------------------------------------------------------- context menu

  /** `selectionText.toLowerCase().trim()`: the key a selection is stored under, the
      lowercased selection without the white space at either end. */
  function SelectionKey(selection: string): (r: string)
    ensures TrimmedSliceOf(r, Lower(selection))
    ensures Lower(r) == r
  {
    var low := Lower(selection);
    LowerIdempotent(selection);
    TrimKeepsLower(low);
    Trim(low)
  }

  lemma TrimKeepsLower(s: string)
    requires Lower(s) == s
    ensures Lower(Trim(s)) == Trim(s)
  {
    var r := Trim(s);
    var a := LeadingSpace(s);
    assert TrimmedSliceOf(r, s);
    LowerSliceOfLower(s, a, a + |r|);
  }

  /** A stored key is its own selection key. */
  lemma SelectionKeyIdempotent(selection: string)
    ensures SelectionKey(SelectionKey(selection)) == SelectionKey(selection)
  {
    var k := SelectionKey(selection);
    TrimOfTrimmed(k);
  }

  /** `wordLists[key] ||= {}; wordLists[key][word] = translation`. */
  function AddWord(lists: WordLists, key: string, word: string, translation: string): (r: WordLists)
    ensures key in r && r[key].Keys == ListOr(lists, key).Keys + {word} && r[key][word] == translation
    ensures r.Keys == lists.Keys + {key}
    ensures forall k :: k in lists && k != key ==> r[k] == lists[k]
    ensures forall w :: w in ListOr(lists, key) && w != word ==> r[key][w] == ListOr(lists, key)[w]
  {
    lists[key := ListOr(lists, key)[word := translation]]
  }

  /** Adding one word from the page is the popup's merge of a one-word update. */
  lemma AddWordIsMerge(lists: WordLists, key: string, word: string, translation: string)
    ensures AddWord(lists, key, word, translation) == Merge(lists, key, map[word := translation])
  {
    assert ListOr(lists, key)[word := translation] == ListOr(lists, key) + map[word := translation];
  }

  /** The handler's two in-place steps, creating the list and setting the word, give
      `AddWord`. */
  lemma AddWordInPlace(lists: WordLists, key: string, word: string, translation: string)
    ensures var l := if key in lists then lists else lists[key := map[]];
      l[key := l[key][word := translation]] == AddWord(lists, key, word, translation)
  {
  }

  const TranslationFailed := "Translation failed."

  /** The context-menu handler. `translation` is the outcome of the translation call. Reading
      the languages of missing settings throws inside the `try`, like a failed call: the page
      is then told "Translation failed." and nothing is stored. */
  method ContextMenuAdd(store: LocalStore, selection: string, translation: Result<string, string>) returns (msg: Message)
    modifies store
    ensures old(store.settings).None? || translation.Err? ==>
      msg == ShowNotification(TranslationFailed) && store.wordLists == old(store.wordLists)
    ensures old(store.settings).Some? && translation.Ok? ==>
      var key := SettingsPairKey(old(store.settings).value);
      && store.wordLists == Some(AddWord(old(store.wordLists).GetOr(map[]), key, SelectionKey(selection), translation.value))
      && msg == WordAdded(SelectionKey(selection), translation.value, key)
    ensures store.settings == old(store.settings) && store.isEnabled == old(store.isEnabled)
  {
    var word := SelectionKey(selection);
    var lists := store.wordLists.GetOr(map[]);
    if store.settings.None? || translation.Err? {
      return ShowNotification(TranslationFailed);
    }
    var key := SettingsPairKey(store.settings.value);
    AddWordInPlace(lists, key, word, translation.value);
    if key !in lists {
      lists := lists[key := map[]];
    }
    lists := lists[key := lists[key][word := translation.value]];
    store.wordLists := Some(lists);
    msg := WordAdded(word, translation.value, key);
  }

  // ---------------------------------------------------------------- translation call

  /** The provider `translateWord` sends, as written: the `{ provider: 'deepl' }` default
      applies only when no settings are stored at all. */
  function ProviderParamAsWritten(settings: Option<StoredSettings>): string {
    match settings
    case None => "deepl"
    case Some(s) => FieldText(s.provider)
  }

  /** Right after install the settings exist but hold no provider, so the request says
      "undefined" although the popup shows DeepL selected. */
  lemma FreshInstallProviderAsWritten()
    ensures ProviderParamAsWritten(Some(InitialSettings)) == "undefined"
    ensures EffectiveSettings(Some(InitialSettings)).provider == "deepl"
  {
  }

  /** The provider sent, falling back to DeepL whenever none is stored. */
  function ProviderParam(settings: Option<StoredSettings>): (r: string)
    ensures settings.Some? && settings.value.provider.Some? ==> r == settings.value.provider.value
  {
    if settings.Some? && settings.value.provider.Some? then settings.value.provider.value else "deepl"
  }

  /** The request names the provider the popup shows as selected, and differs from the
      written code only when settings exist without a provider. */
  lemma ProviderParamAgreesWithPopup(settings: Option<StoredSettings>)
    ensures ProviderParam(settings) == EffectiveSettings(settings).provider
    ensures settings.None? || settings.value.provider.Some? ==> ProviderParam(settings) == ProviderParamAsWritten(settings)
  {
  }

  /** `new URLSearchParams({ text, target_lang, provider })`, then `source_lang` appended
      only when a source language is given. A missing value reads "undefined". */
  function RequestParams(text: string, sourceLang: Option<string>, targetLang: Option<string>, settings: Option<StoredSettings>): (r: seq<(string, string)>)
    ensures |r| >= 3
    ensures r[..3] == [("text", text), ("target_lang", FieldText(targetLang)), ("provider", ProviderParam(settings))]
    ensures (exists i :: 3 <= i < |r| && r[i].0 == "source_lang") <==> sourceLang.Some? && sourceLang.value != []
    ensures |r| > 3 ==> sourceLang.Some? && r[3..] == [("source_lang", sourceLang.value)]
  {
    var base := [("text", text), ("target_lang", FieldText(targetLang)), ("provider", ProviderParam(settings))];
    if sourceLang.Some? && sourceLang.value != [] then
      assert (base + [("source_lang", sourceLang.value)])[3].0 == "source_lang";
      base + [("source_lang", sourceLang.value)]
    else base
  }

  /** `response.ok` and the `switch` on `response.status`. */
  function TranslateError(status: int): (r: Option<string>)
    ensures r.None? <==> 200 <= status <= 299
    ensures r.Some? && status == 400 ==> r.value == "Invalid parameters or text too long (max 30 characters)"
    ensures r.Some? && status == 401 ==> r.value == "Unauthorized: Origin not allowed"
    ensures r.Some? && status == 405 ==> r.value == "Method not allowed"
    ensures r.Some? && status != 400 && status != 401 && status != 405 ==> r.value == "Translation failed"
  {
    if 200 <= status <= 299 then None
    else if status == 400 then Some("Invalid parameters or text too long (max 30 characters)")
    else if status == 401 then Some("Unauthorized: Origin not allowed")
    else if status == 405 then Some("Method not allowed")
    else Some("Translation failed")
  }
}
