/** What the three scripts share: the records kept in `chrome.storage.local`, the key that
    names a language pair, and the messages the popup and the background send to pages. */
module Store {
  import opened Wrappers

  /** The stored `settings` object. A field the object lacks is `None`. */
  datatype StoredSettings = StoredSettings(
    defaultLanguage: Option<string>,
    targetLanguage: Option<string>,
    provider: Option<string>,
    excludedSites: Option<seq<string>>)

  /** One language pair's word list: word to translation. */
  type WordList = map<string, string>

  /** One word-list entry, as `Object.entries` yields it: word and translation. */
  type Entry = (string, string)

  /** All word lists, by pair key. */
  type WordLists = map<string, WordList>

  /** How a template literal renders a string field: a missing one reads "undefined". */
  function FieldText(f: Option<string>): (r: string)
    ensures f.Some? ==> r == f.value
    ensures f.None? ==> r == "undefined"
  {
    match f
    case Some(s) => s
    case None => "undefined"
  }

  /** `${defaultLanguage}-${targetLanguage}`. */
  function PairKey(defaultLanguage: string, targetLanguage: string): (k: string)
    ensures |k| == |defaultLanguage| + 1 + |targetLanguage|
    ensures k[|defaultLanguage|] == '-'
    ensures k[..|defaultLanguage|] == defaultLanguage && k[|defaultLanguage| + 1..] == targetLanguage
  {
    defaultLanguage + "-" + targetLanguage
  }

  /** The key of the pair the stored settings select. */
  function SettingsPairKey(s: StoredSettings): string {
    PairKey(FieldText(s.defaultLanguage), FieldText(s.targetLanguage))
  }

  /** Settings that lack both languages select the pair "undefined-undefined". */
  lemma UnsetLanguagesPairKey(s: StoredSettings)
    requires s.defaultLanguage.None? && s.targetLanguage.None?
    ensures SettingsPairKey(s) == "undefined-undefined"
  {
  }

  /** A source language code holds no '-' (target codes such as "EN-US" may), so the key
      names exactly one pair. */
  lemma PairKeyInjective(d1: string, t1: string, d2: string, t2: string)
    requires '-' !in d1 && '-' !in d2
    ensures PairKey(d1, t1) == PairKey(d2, t2) <==> d1 == d2 && t1 == t2
  {
  }

  /** The messages content.js listens for. */
  datatype Message =
    | WordAdded(word: string, translation: string, langPairKey: string)
    | WordEdited(word: string, translation: string, langPairKey: string)
    | WordDeleted(word: string, langPairKey: string)
    | ShowNotification(text: string)
    | ToggleSwap(isEnabled: bool)
    | WordListUpdated(langPairKey: string)
    | SettingsUpdated(settings: StoredSettings)

  /** `chrome.storage.local`, reduced to the three keys the extension uses. A key that was
      never written is `None`. */
  class LocalStore {
    var settings: Option<StoredSettings>
    var wordLists: Option<WordLists>
    var isEnabled: Option<bool>

    constructor (settings: Option<StoredSettings>, wordLists: Option<WordLists>, isEnabled: Option<bool>)
      ensures this.settings == settings && this.wordLists == wordLists && this.isEnabled == isEnabled
    {
      this.settings := settings;
      this.wordLists := wordLists;
      this.isEnabled := isEnabled;
    }
  }
}
