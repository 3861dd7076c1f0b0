# LinguaSwap in Dafny

LinguaSwap is a browser extension for vocabulary learning. The user keeps one word
list per language pair, e.g. `EN-DE` mapping `cat` to `Katze`. On every page, the
content script replaces each occurrence of a listed word with a marker element
(`span.linguaswap-word`). The marker shows the translation and keeps the original
text in its `title`. The popup manages the lists: edit, delete, search, sort,
CSV import and export, and the settings form. The background worker sets up
storage on install, adds a selected word through the context menu, and builds the
translation request.

This project models the core of the three scripts and proves what they promise.

- `Wrappers.dfy`: `Option` (a missing JavaScript field, with the destructuring
  default `GetOr`) and `Result` (a thrown error).
- `Strings.dfy`: ASCII `toLowerCase`, `trim` with JavaScript's white-space set,
  `split` and `join` on one character, and `includes`.
- `Matcher.dfy`: `escapeRegExp`, and the expression `replaceWords` builds for a
  word.
  - For a Chinese source (`ZH`) the flag is `g`: literal and case-sensitive.
  - For any other source it is `\b…\b` with flags `gi`.
  - `\b` is a boundary between `[A-Za-z0-9_]` and anything else.
  - `Split` gives what `split` and `match` return on one text node: leftmost,
    non-overlapping matches and the parts between them.
- `Store.dfy`: the stored records and the pair key `default-target`; the messages
  sent to pages; and `LocalStore`, a class over the three storage keys.
- `Page.dfy`: a page as the sequence of its leaves in document order.
  - A leaf is a text node or a marker, and carries the tags of its ancestors.
  - The pure effect of `replaceWords`: the refresh loop, the tree-walker filter
    and the fragment built for each text node.
  - The filter comes in two forms. `EligibleAsWritten` is the one content.js
    applies. `Eligible` is the corrected one, which refuses text under a script,
    style, input or textarea at any depth. The rewrite uses the corrected one
    (see "## Findings").
  - The pure effect of the revert loops.
  - Applying a whole word list in callback order.
- `Content.dfy`: the message handler and the initial load, as a step function
  `Step` over the state (`isSwappingEnabled`, page). The class `ContentScript`
  implements it with loops over the page, each proved against `Step` or the
  `Page` function it runs.
- `Popup.dfy`: `updateStoredWordList` (a method over `LocalStore`); delete and edit;
  CSV import and export; the search filter and the sort toggle (a class); the
  excluded-sites textarea; the defaults merge and the same-language check of the
  settings form.
- `Background.dfy`:
  - the install handler and the context-menu handler, as methods over `LocalStore`;
  - the selection key;
  - the request parameters and the status-to-error mapping of `translateWord`.

Storage reads, the translation result and the HTTP status are parameters.

## Model

| member | source | states |
|---|---|---|
| Matcher.Escape | content.js:227-229 | the escaped word is never shorter than the word |
| Matcher.BuildRegex | content.js:136-138 | definition of the expression text and flags; `CompileBuildRegex` states its meaning |
| Matcher.EscapeRoundTrip | content.js:227-229 | read back as a regular expression, the escaped word stands for exactly the word: only the fourteen metacharacters are prefixed, each with one backslash |
| Matcher.EscapeUnchangedIff | content.js:227-229 | escaping leaves a word unchanged if and only if it holds none of `. * + ? ^ $ { } ( ) \| [ ] \` |
| Matcher.EscapeNotBoundaryPrefix | content.js:137 | an escaped word never starts with `\b`, so a Chinese-source expression cannot be read as a bounded one |
| Matcher.CompileBuildRegex | content.js:130-138 | the built expression means the word literally: case-sensitive and boundary-free for `ZH`, case-insensitive with `\b` on both sides otherwise |
| Matcher.CatMatchedAsWord | content.js:138 | "cat" matches as a whole word in "the cat sat" |
| Matcher.CatNotMatchedInsideCategory | content.js:136-138 | "cat" does not match at the start of "category" for a bounded source; it does for `ZH` |
| Matcher.CatMatchedIgnoringCase | content.js:136-138 | "Cat" matches "cat" for a non-`ZH` source and not for `ZH` |
| Matcher.ChineseMatchesEveryOccurrence | content.js:137 | with `ZH` every literal occurrence matches, adjacent ones included |
| Matcher.MatchAt | content.js:138 | definition of a match at a position: the word (up to ASCII case when case is ignored), with `\b` on both sides for a bounded pattern; the examples above and `SplitPositions` state what it gives |
| Matcher.SplitFrom | content.js:165-166 | there is one more part than there are matches |
| Matcher.Split | content.js:165-166 | `split` gives exactly one more part than `match` gives matches |
| Matcher.SplitFacts | content.js:165-166 | parts and matches interleaved give back the node text; each match is the word (up to ASCII case when case is ignored); no part holds a match, nor a match of any pattern of the same mode that the whole text lacked |
| Matcher.PositionsAreMatches | content.js:165-166 | the scanned start positions increase, never overlap, and each is a match of the word in the text |
| Matcher.PositionsComplete | content.js:165-166 | every position where the word matches lies inside one of the scanned matches: the scan skips no match |
| Matcher.SplitAtPositions | content.js:165-166 | `split` and `match` cut the text at the scanned positions: match k is the text at position k, which is where it starts after the parts and matches before it |
| Matcher.SplitPositions | content.js:165-166 | each match `match` returns sits at a real match position, in order and without overlap, and every match position of the text lies within one of them (leftmost, none skipped) |
| Matcher.SplitMatchesAreMatches | content.js:165-166 | every match returned is the text of a real match of the node: the word at a match position, with the boundaries the pattern needs |
| Matcher.PieceHasNoNewMatches | content.js:165 | a piece between two boundaries in which no match starts holds no match, and any match in it is a match of the whole text |
| Matcher.MatchInPiece | content.js:165 | a match inside a piece cut at word boundaries is a match of the whole text at the shifted position |
| Strings.LowerOnlyCapitals | content.js:123 | `toLowerCase` changes only the capitals `A` to `Z`, each to the small letter at the same offset; every other character is kept |
| Strings.LowerIdempotent | background.js:46 | lowercasing twice is the same as lowercasing once |
| Strings.Trim | popup.js:242 | `trim` removes exactly the outer white space: the result is the slice after the leading white space, it starts and ends with a non-space, every character outside it is white space, and it is empty if and only if the line is all white space |
| Strings.SplitOn | popup.js:242 | `split('\n')` gives at least one piece; no piece holds the separator; joining the pieces gives the text back |
| Strings.SplitJoin | popup.js:153 | splitting the joined lines gives the lines back when none holds the separator |
| Store.UnsetLanguagesPairKey | content.js:12 | settings without languages give the pair key `undefined-undefined`, as the template literal renders missing fields |
| Store.SettingsPairKey | content.js:12 | definition: the template literal `${defaultLanguage}-${targetLanguage}` over the stored settings, a missing field rendered as "undefined"; `PairKey`, `PairKeyInjective`, `UnsetLanguagesPairKey` and `Background.InstalledPairKey` state what it gives |
| Store.PairKey | background.js:70 | the key is the source code, `-`, then the target code, in that order |
| Store.PairKeyInjective | background.js:70 | when source codes hold no `-`, equal keys mean equal pairs, and conversely |
| Page.TextAreaTextEligibleAsWritten | content.js:196-201 | as written, the text of a textarea inside a list item is offered for rewriting; the corrected filter refuses it |
| Page.ScannedIffAsWrittenWithoutSkipTags | content.js:196-201 | the corrected filter accepts a path if and only if the written one does and no ancestor is script, style, input or textarea |
| Page.EligibleAsWritten | content.js:141-160 | definition of the filter as written: a text node under some container with no skipped element at or above that container, whose text holds a match |
| Page.Eligible | content.js:141-160 | definition of the corrected filter: a text node under some container, with no skipped element above it at all, whose text holds a match |
| Page.ScanSparesSkipped | content.js:196-201 | after a rewrite, every leaf under a script, style, input or textarea is one the page already had |
| Page.ScanKeepsIneligible | content.js:141-160 | a rewrite keeps every leaf its filter does not accept |
| Page.FragmentOriginal | content.js:163-189 | the fragment, read through its markers' titles, is exactly the node text it replaces |
| Page.FragmentMarkers | content.js:175-186 | the fragment has one marker per match, in order, titled with the matched text as on the page and showing the translation |
| Page.FragmentLeaves | content.js:168-186 | every fragment leaf stays under the node's parent; its text nodes are non-empty parts; its markers carry a match and show the translation |
| Page.Fragment | content.js:163-189 | definition: each non-empty part as text, each match as a marker after its part; `FragmentOriginal`, `FragmentMarkers` and `FragmentLeaves` state what it gives |
| Page.Refresh | content.js:122-126 | leaf by leaf: each marker whose title equals the word up to ASCII case now shows the translation; every other leaf is unchanged, in its place |
| Page.RefreshOriginal | content.js:122-126 | the refresh does not change the text read through the titles |
| Page.RefreshOrigin | content.js:122-126 | each leaf after a refresh is an old leaf, or an old marker of the word showing the new translation; a marker of the word shows the translation |
| Page.RefreshListUnmarked | content.js:122-126 | refreshing a page without markers changes nothing |
| Page.RefreshWithoutSelected | content.js:122-126 | a refresh with no marker of the word on the page changes nothing |
| Page.RefreshAfterRevert | content.js:17-21 | refreshing a word just after reverting its markers changes nothing: no marker of it is left |
| Page.RefreshList | content.js:122-126 | definition: the refresh of each entry, in call order; `RefreshListOriginal` and `ApplyListShows` state what it gives |
| Page.RewriteLeafOriginal | content.js:163-189 | rewriting one leaf keeps its original text |
| Page.ScanOrigin | content.js:141-189 | each leaf after the rewrite is one of three: an ineligible leaf kept; a marker showing the translation whose title is the text of a real match in an accepted text node under the same parent; a non-empty text node, under the same parent, that is one of the split parts of an accepted node and holds no new match |
| Page.ScanOriginal | content.js:141-189 | a rewrite keeps the text read through the titles |
| Page.Scan | content.js:129-192 | definition: every leaf rewritten on its own, an accepted text node into its fragment and every other leaf kept; `ScanOrigin`, `ScanComplete` and `ScanOriginal` state what it gives |
| Page.ScanComplete | content.js:141-189 | after the rewrite no scanned text node holds a match: markers are never nested and no occurrence is missed |
| Page.RevertOriginal | content.js:17-21 | a revert does not change the text read through the titles |
| Page.RevertMarkers | content.js:17-21 | after a revert no selected marker is left; the markers that remain are exactly the page's markers whose title does not match the word; every text node it adds holds the title of a reverted marker, under that marker's parent |
| Page.Revert | content.js:17-21 | definition: each reverted marker becomes its title as text, every other leaf is kept; the lemmas around it state what it gives |
| Page.RevertWithoutSelectedMarkers | content.js:17-21 | a revert that selects no marker changes nothing |
| Page.RevertIdempotent | content.js:53-55 | reverting twice is the same as reverting once |
| Page.RevertAllRestores | content.js:64-66 | reverting every marker leaves none and shows the original text |
| Page.ReplaceWordsOriginal | content.js:118-193 | `replaceWords` does not change the text read through the titles |
| Page.RoundTrip | content.js:118-193 | on a page without markers, `replaceWords` and then reverting all markers gives back the shown text, whatever the translation |
| Page.ReplaceWordsMarkers | content.js:122-186 | after `replaceWords` each marker is an old one, or a marker of the word showing the translation |
| Page.ReplaceWordsKeepsMarkers | content.js:122-126 | `replaceWords` keeps every marker of another word: the refresh leaves it and the rewrite never offers it |
| Page.ReplaceWordsIdempotent | content.js:118-193 | calling `replaceWords` twice with the same word and translation is the same as calling it once |
| Page.ReplaceWords | content.js:118-193 | definition: the refresh, then the rewrite with the word's pattern; the lemmas above state what it gives |
| Page.RefreshListOriginal | content.js:57-59 | the refreshes of a list keep the text read through the titles |
| Page.ScanListOriginal | content.js:57-59 | the rewrites of a list keep the text read through the titles |
| Page.ScanListJustified | content.js:80-82 | from a page without markers, every marker shows the translation of an entry whose word is its title up to case, and that word occurs as the entry's pattern finds it (a whole word unless the source is Chinese) in an accepted text node of the page under the marker's parent |
| Page.ScanListOccursBack | content.js:165-189 | a text node left by a list's rewrites that holds a match of a word of the same mode comes from an accepted node of the original page under the same parent that holds one too |
| Page.ScanListComplete | content.js:80-82 | after a list's rewrites no scanned text node holds a match of any entry's word, even if a later rewrite cut it |
| Page.ScanList | content.js:129-192 | definition: the rewrite of each entry, in call order; `ScanListJustified` and `ScanListComplete` state what it gives |
| Page.ApplyListShows | content.js:111-113 | applying a list to a page without markers keeps its text, leaves no match unreplaced, and justifies every marker by an entry whose word occurs under the marker's parent on the page |
| Page.MarkerInsideWordNotShown | content.js:138 | a marker for "cat" cut out of "the category" does not show the list: the word does not occur there as a whole word |
| Page.ApplyList | content.js:57-59 | definition: all refreshes, then all rewrites, in entry order; `ApplyListShows` states what it gives |
| Page.TitleInert | content.js:19 | a marker title equals its word up to ASCII case, so it holds no `<` or `&` when the word holds none, and `outerHTML` puts back exactly the title |
| Content.DisabledIgnoresMessages | content.js:8-102 | with swapping off, every message but `toggleSwap` leaves the state unchanged |
| Content.ForeignPairIgnored | content.js:8-85 | a word or list message for another pair, or one that finds no settings, changes nothing |
| Content.StepKeepsOriginal | content.js:5-103 | no message changes the page text read through the markers' titles |
| Content.ToggleOffRestores | content.js:62-67 | switching off clears the flag, leaves no marker and shows the original text |
| Content.ToggleOnShowsActiveList | content.js:44-61 | switching on with lists and settings stored sets the flag and shows the stored pair's list over the original text |
| Content.ToggleOnOffRoundTrip | content.js:44-67 | switching on and then off gives back the text a page without markers showed |
| Content.ListUpdatedShowsList | content.js:68-85 | a list update for the stored pair, with swapping on, shows that pair's list over the original text |
| Content.SettingsUpdatedShowsNewPair | content.js:86-101 | with swapping on, new settings show the list of the pair the message names |
| Content.WordDeletedRevertsOnlyThatWord | content.js:28-41 | deleting a word of the stored pair keeps the text, and the markers left are exactly those of other words |
| Content.WordChangedShowsTranslation | content.js:8-27 | after an add or edit, every marker of the word shows the new translation; no scanned text node holds the word; the markers of other words are exactly those the page already had |
| Content.BootShowsActiveList | content.js:105-115 | the flag defaults to on; with it on and settings present the page shows the stored pair's list, otherwise the page is untouched |
| Content.Boot | content.js:105-115 | definition of the initial load; `BootShowsActiveList` states what it gives |
| Content.Step | content.js:5-103 | definition of the message handler on the state; the lemmas above state what it gives |
| Content.WordChanged | content.js:8-27 | definition of the add and edit branch; `WordChangedShowsTranslation` states what it gives |
| Content.ShowWord | content.js:16-23 | definition: revert the word's markers, then `replaceWords` for it; `WordChangedShowsTranslation` states what it gives |
| Content.ListFor | content.js:51 | definition of `wordLists[key] \|\| {}`: the stored list of the pair, or no entries; `ToggleOnShowsActiveList`, `ListUpdatedShowsList` and `BootShowsActiveList` state what it gives |
| Content.IsZh | content.js:130 | definition: the stored source language is `ZH`, which picks the literal pattern; `Matcher.CompileBuildRegex` states what each choice means |
| Content.CollectTextNodes | content.js:141-160 | the walker yields, in document order and without repeats, exactly the accepted text nodes |
| Content.BuildFragment | content.js:163-189 | the appended fragment is `Page.Fragment` of the parts and matches |
| Content.ContentScript.constructor | content.js:105-115 | the initial state is `Boot` of the page and the storage read |
| Content.ContentScript.RevertMarkers | content.js:17-21 | the page becomes `Revert` of the old page; the flag is kept |
| Content.ContentScript.RefreshMarkers | content.js:122-126 | the page becomes `Refresh` of the old page |
| Content.ContentScript.ScanPage | content.js:129-192 | the page becomes `Scan` of the old page |
| Content.ContentScript.ReplaceWords | content.js:118-193 | the page becomes `Page.ReplaceWords` of the old page |
| Content.ContentScript.ApplyList | content.js:57-59 | the page becomes `Page.ApplyList`: all refreshes first, then all rewrites, in entry order |
| Content.ContentScript.RefreshAll | content.js:111-113 | the synchronous refresh of each `replaceWords` call, in order, gives `RefreshList` |
| Content.ContentScript.ScanAll | content.js:97-99 | the deferred rewrites, in call order, give `ScanList` |
| Content.ContentScript.Handle | content.js:5-103 | the new flag and page are `Step` of the old ones for the message |
| Popup.Merge | popup.js:26-32 | the pair's list gets every key of the updates with its value; its other words and all other pairs are unchanged; the key set grows by the pair at most |
| Popup.UpdateStoredWordList | popup.js:26-32 | stores the merge of the stored lists (none reads as empty) and returns the pair's merged list; settings and flag unchanged |
| Popup.DeleteWord | popup.js:670-672 | with the pair's list present, removes only that word from that pair; other words and pairs are kept; with no list it throws and nothing is stored |
| Popup.EditTranslation | popup.js:636-640 | a blank trimmed input changes nothing; otherwise the pairs are the old ones plus this pair, its words are its old words plus this word, the word maps to the trimmed input, and every other word and pair is unchanged |
| Popup.TrimmedNonBlank | popup.js:429-432 | the kept lines are non-empty and trimmed, and there are no more of them than input lines |
| Popup.TrimmedNonBlankKeeps | popup.js:429-432 | the trimmed form of every line with text is kept |
| Popup.TrimmedNonBlankInOrder | popup.js:242 | the kept lines are exactly the trimmed non-blank lines, each once, in input order |
| Popup.NonBlankLines | popup.js:242 | definition: split at newlines, trim, drop the empty lines; `TrimmedNonBlank`, `TrimmedNonBlankKeeps` and `TrimmedNonBlankInOrder` state what it gives |
| Popup.ExcludedSitesRoundTrip | popup.js:429-432 | reading back the textarea the form fills gives the stored sites, when each is non-empty, trimmed and on one line |
| Popup.ParseLine | popup.js:245-251 | a line parses if and only if its first two comma fields, trimmed, are non-empty; the word is lowercased, the translation kept |
| Popup.ParseLines | popup.js:245-251 | definition of the throwing `lines.map`: every line's parse, or nothing when one line fails; `ImportCsv` states what it gives |
| Popup.FromEntries | popup.js:254 | the updates hold exactly the words of the entries |
| Popup.FromEntriesLastWins | popup.js:254 | for a duplicated word the last entry's translation wins |
| Popup.ImportCsv | popup.js:241-254 | the import fails with the CSV-format message if and only if some non-blank line does not parse |
| Popup.Rows | popup.js:301-303 | one row per entry, in order; a row whose word and translation hold no comma splits at its comma back into the word and the translation |
| Popup.RowFields | popup.js:302 | `word,translation` splits at the comma into the word and the translation when neither holds a comma |
| Popup.ExportCsv | popup.js:301-306 | definition of the exported file: the pair key, a newline, then the rows joined by newlines; `CsvRoundTrip` and `ExportIsNotImportable` state what it gives |
| Popup.CsvRoundTrip | popup.js:301-303 | importing the exported rows gives back the list when every entry is CSV-safe |
| Popup.LineWithoutCommaRefused | popup.js:246-248 | a line without a comma is refused |
| Popup.ExportIsNotImportable | popup.js:306 | the exported file, whose first line is the bare pair key, is refused by the importer |
| Popup.FilterEntries | popup.js:388-392 | each entry whose lowercased word or translation contains the lowercased term is kept as often as it occurs; no other entry is kept |
| Popup.FilterEntriesInOrder | popup.js:388-392 | the kept entries are exactly the matching ones, each once, in input order |
| Popup.EmptySearchKeepsAll | popup.js:385-392 | the empty search term keeps every entry, in order |
| Popup.MatchesSearch | popup.js:389-391 | definition of the search test: the lowercased word or translation contains the lowercased term; `FilterEntries`, `FilterEntriesInOrder` and `EmptySearchKeepsAll` state what it gives |
| Popup.SortEntriesFacts | popup.js:393 | the sort orders by word in the chosen direction and is a permutation of its input |
| Popup.SortEntries | popup.js:393 | definition: insertion by word in the chosen direction; `SortEntriesFacts` states what it gives |
| Popup.SortToggle.constructor | popup.js:329 | the sort starts ascending |
| Popup.SortToggle.Click | popup.js:336-337 | a click flips the direction |
| Popup.SortToggle.Displayed | popup.js:385-393 | the list shows the matching entries, each as often as in the input and no others, sorted by word in the current direction |
| Popup.EffectiveSettings | popup.js:136-144 | each stored field overrides its default `EN`, `DE`, `deepl`, `[]`; with nothing stored the defaults apply |
| Popup.SaveSettings | popup.js:425-445 | saving fails with the same-language message if and only if the pair is `EN` to `EN-US` |
| Popup.SavedSettingsReadBack | popup.js:440-445 | saved settings read back into the form as saved and select the chosen pair |
| Background.OnInstalled | background.js:27-39 | with no settings stored, writes empty languages and no lists; with settings stored, changes nothing |
| Background.InstalledPairKey | background.js:29-39 | right after install the settings' pair key is `-` |
| Background.SelectionKey | background.js:46 | the lowercased selection is white space, then the key, then white space; the key starts and ends with a non-space and is already lowercase |
| Background.SelectionKeyIdempotent | background.js:46 | a key is its own selection key |
| Background.AddWord | background.js:73-80 | the pair's list is created if missing and maps the word to the translation; every other word and pair is unchanged |
| Background.AddWordIsMerge | background.js:73-80 | adding one word is the popup's merge of a one-word update |
| Background.ContextMenuAdd | background.js:44-99 | with settings and a translation, stores `AddWord` under the settings' pair and sends `wordAdded`; otherwise sends "Translation failed." and stores nothing |
| Background.FreshInstallProviderAsWritten | background.js:107-114 | as written, right after install the request names the provider "undefined" although the popup shows `deepl` |
| Background.ProviderParamAsWritten | background.js:107-114 | definition of the provider as written: `deepl` only when no settings are stored, otherwise the stored field as a template renders it; `FreshInstallProviderAsWritten` states what it gives |
| Background.ProviderParam | background.js:107-114 | a stored provider is sent as is |
| Background.ProviderParamAgreesWithPopup | background.js:107 | the corrected provider is the one the popup shows; it differs from the written code only when settings lack a provider |
| Background.RequestParams | background.js:110-119 | `text`, `target_lang`, `provider` first; `source_lang` is appended, as the only extra parameter, if and only if the source language is non-empty |
| Background.TranslateError | background.js:141-155 | no error if and only if the status is 2xx; 400, 401 and 405 get their messages; any other failure gets "Translation failed" |

## Left out

- Chrome APIs are left out: `chrome.storage`, `chrome.tabs`, messaging and context-menu registration. Storage reads are parameters (`StoreView`, `LocalStore`).
- The interleaving of asynchronous callbacks is not modelled. Each message is handled as one step. Within one list, all refreshes run before all rewrites; this is the callback order of `replaceWords`.
- The network call in `translateWord` is a parameter: its result or error, and its status code. So is the remote word-list download and import in popup.js.
- URL encoding of the query string is not modelled; parameters are kept as name/value pairs.
- UI is left out: i18n, tabs, modals, notifications, `showNotification` in content.js, button labels and the computed-style copy onto markers.
- `excludedSites` is stored and sent but content.js never reads it, so no page logic depends on it.
- The global-regex `lastIndex` quirk is not modelled. `regex.test` with the `g` flag in the tree-walker filter is stateful and can skip a node; the model's filter is "the text holds a match".
- Revert through `outerHTML` is modelled as inserting the title as plain text. `Page.TitleInert` shows this is exact when the word holds no `<` or `&`.
- Adjacent text nodes are not merged after a revert. The page is compared by its concatenated text.
- `toLowerCase` is modelled on ASCII letters only, and `localeCompare` as character-code order (`Popup.LexLe`). Ties in the sort keep their input order.
- Matcher.SameText and Matcher.MatchAt fold ASCII letters only. The `i` flag of the bounded expression also folds other letters (`É` matches `é`); the model does not.
- The empty word is taken to match nothing. JavaScript's `split` with an empty pattern would cut between every character.
- The order of `Object.entries` is an input: lists on the page side are sequences of entries.
- Popup.DeleteWord: the in-memory `currentWordList` copy of the popup is not modelled, only the stored lists.
- Popup.ImportCsv: the result is the updates object; storing it is `Popup.UpdateStoredWordList`.
- Store.LocalStore: a write that fails or another tab writing concurrently is not modelled.
- Page.Scan implements the corrected filter `Page.Eligible`, not the filter content.js:141-160 applies with `shouldSkipElement` (content.js:196-201). That filter is `Page.EligibleAsWritten`, and the first row of "## Findings" shows where they differ.
- Content.CollectTextNodes implements the corrected filter too: it yields the text nodes `Page.Eligible` accepts.
- Content.ContentScript.ScanPage implements the corrected filter: its result is `Page.Scan`.
- Background.ProviderParam implements the corrected default: `deepl` whenever no provider is stored. As written, background.js:107 defaults only when no settings are stored (`Background.ProviderParamAsWritten`, second row of "## Findings").
- Background.RequestParams implements the corrected provider rule: its `provider` is `Background.ProviderParam`.
- content.js:132-191 runs one walker per matched container, so text inside nested containers (a `span` in a `p`) is walked more than once. The model rewrites each leaf once. A later walk finds nothing new there. A marker's text is never offered to the filter. By `Matcher.SplitFacts` (`NoNewMatches`), the text pieces a rewrite leaves hold no match. So `Page.ScanComplete` holds: no accepted text node is left after one rewrite.

## Findings

| source | as written | input that shows it | evidently intended | confidence | as-written member | corrected member |
|---|---|---|---|---|---|---|
| content.js:196-201 | `shouldSkipElement` checks only the scanned container and its ancestors, not the elements between the container and the text node | `<li><textarea>the cat</textarea></li>` with the word "cat": the textarea's text is rewritten into a marker | nothing inside script, style, input or textarea is rewritten | not executed | Page.TextAreaTextEligibleAsWritten | Page.ScanSparesSkipped |
| background.js:107 | the `{ provider: 'deepl' }` default applies only when no settings exist, but install writes settings without a provider (background.js:29-39) | a fresh install, then adding a word from the context menu: the request carries `provider=undefined` while the popup shows DeepL selected | the provider defaults to `deepl` as in the popup (popup.js:136-144) | not executed | Background.FreshInstallProviderAsWritten | Background.ProviderParamAgreesWithPopup |
