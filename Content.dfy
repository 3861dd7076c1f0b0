/** content.js: the page's swap controller and the DOM work of `replaceWords`. */
module Content {
  import opened Wrappers
  import opened Strings
  import opened Matcher
  import opened Store
  import opened Page

  /** What a storage read returns to the page. Each list is given as the entries
      `Object.entries` yields, in that order. */
  datatype StoreView = StoreView(
    settings: Option<StoredSettings>,
    wordLists: Option<map<string, seq<Entry>>>,
    isEnabled: Option<bool>)

  /** `settings?.defaultLanguage === 'ZH'`, read when a rewrite runs. */
  predicate IsZh(st: StoreView) {
    st.settings.Some? && st.settings.value.defaultLanguage == Some("ZH")
  }

  /** `wordLists[key] || {}`. */
  function ListFor(lists: map<string, seq<Entry>>, key: string): seq<Entry> {
    if key in lists then lists[key] else []
  }

  /** The controller's state: the `isSwappingEnabled` flag and the page. */
  datatype State = State(swapping: bool, page: Doc)

  /** Reverting the markers of one word, then `replaceWords` for it. */
  function ShowWord(d: Doc, word: string, translation: string, st: StoreView): Doc {
    ReplaceWords(Revert(d, Some(word)), word, translation, IsZh(st))
  }

  /** Handling a `wordAdded` or `wordEdited` message. Missing settings make the callback throw
      before it changes anything. */
  function WordChanged(s: State, word: string, translation: string, key: string, st: StoreView): State {
    if !s.swapping || st.settings.None? || key != SettingsPairKey(st.settings.value) then s
    else s.(page := ShowWord(s.page, word, translation, st))
  }

  /** The effect of one message on the controller. */
  function Step(s: State, msg: Message, st: StoreView): State {
    match msg
    case WordAdded(word, translation, key) => WordChanged(s, word, translation, key, st)
    case WordEdited(word, translation, key) => WordChanged(s, word, translation, key, st)
    case WordDeleted(word, key) =>
      if !s.swapping || st.settings.None? || key != SettingsPairKey(st.settings.value) then s
      else s.(page := Revert(s.page, Some(word)))
    case ShowNotification(_) => s
    case ToggleSwap(on) =>
      if !on then State(false, Revert(s.page, None))
      else if st.wordLists.Some? && st.settings.Some? then
        State(true, ApplyList(Revert(s.page, None), ListFor(st.wordLists.value, SettingsPairKey(st.settings.value)), IsZh(st)))
      else State(true, s.page)
    case WordListUpdated(key) =>
      if !s.swapping || st.settings.None? || key != SettingsPairKey(st.settings.value) then s
      // reading the list of missing word lists throws after the markers are reverted
      else if st.wordLists.None? then s.(page := Revert(s.page, None))
      else s.(page := ApplyList(Revert(s.page, None), ListFor(st.wordLists.value, key), IsZh(st)))
    case SettingsUpdated(settings) =>
      if !s.swapping then s
      else if st.wordLists.None? then s.(page := Revert(s.page, None))
      else s.(page := ApplyList(Revert(s.page, None), ListFor(st.wordLists.value, SettingsPairKey(settings)), IsZh(st)))
  }

  /** The initial load: the flag defaults to on, the lists to none, and the active list is
      applied only when swapping is on and settings exist. */
  function Boot(d: Doc, st: StoreView): State {
    var on := st.isEnabled.GetOr(true);
    if on && st.settings.Some? then
      State(on, ApplyList(d, ListFor(st.wordLists.GetOr(map[]), SettingsPairKey(st.settings.value)), IsZh(st)))
    else State(on, d)
  }

  // ---------------------------------------------------------------- controller rules

  /** With swapping off, every message but `toggleSwap` is ignored. */
  lemma DisabledIgnoresMessages(s: State, msg: Message, st: StoreView)
    requires !s.swapping && !msg.ToggleSwap?
    ensures Step(s, msg, st) == s
  {
  }

  /** A word or list message for a pair other than the stored one, or one that finds no
      stored settings, changes nothing. */
  lemma ForeignPairIgnored(s: State, msg: Message, st: StoreView)
    requires msg.WordAdded? || msg.WordEdited? || msg.WordDeleted? || msg.WordListUpdated?
    requires st.settings.None? || msg.langPairKey != SettingsPairKey(st.settings.value)
    ensures Step(s, msg, st) == s
  {
  }

  /** No message changes the text the page reads back through its markers' titles. */
  lemma StepKeepsOriginal(s: State, msg: Message, st: StoreView)
    ensures Original(Step(s, msg, st).page) == Original(s.page)
  {
    var reverted := Revert(s.page, None);
    RevertOriginal(s.page, None);
    match msg
    case WordAdded(word, translation, key) =>
      RevertOriginal(s.page, Some(word));
      ReplaceWordsOriginal(Revert(s.page, Some(word)), word, translation, IsZh(st));
    case WordEdited(word, translation, key) =>
      RevertOriginal(s.page, Some(word));
      ReplaceWordsOriginal(Revert(s.page, Some(word)), word, translation, IsZh(st));
    case WordDeleted(word, key) =>
      RevertOriginal(s.page, Some(word));
    case ShowNotification(_) =>
    case ToggleSwap(on) =>
      RevertAllRestores(s.page);
      if on && st.wordLists.Some? && st.settings.Some? {
        ApplyListShows(reverted, ListFor(st.wordLists.value, SettingsPairKey(st.settings.value)), IsZh(st));
      }
    case WordListUpdated(key) =>
      RevertAllRestores(s.page);
      if st.wordLists.Some? {
        ApplyListShows(reverted, ListFor(st.wordLists.value, key), IsZh(st));
      }
    case SettingsUpdated(settings) =>
      RevertAllRestores(s.page);
      if st.wordLists.Some? {
        ApplyListShows(reverted, ListFor(st.wordLists.value, SettingsPairKey(settings)), IsZh(st));
      }
  }

  /** Switching off reverts every marker: the page shows its original text again. */
  lemma ToggleOffRestores(s: State, st: StoreView)
    ensures var r := Step(s, ToggleSwap(false), st);
      !r.swapping && NoMarkers(r.page) && Visible(r.page) == Original(s.page)
  {
    RevertAllRestores(s.page);
  }

  /** Switching on, with word lists and settings stored, shows the stored pair's list over
      the page's original text. */
  lemma ToggleOnShowsActiveList(s: State, st: StoreView)
    requires st.settings.Some? && st.wordLists.Some?
    ensures var r := Step(s, ToggleSwap(true), st);
      && r.swapping
      && Original(r.page) == Original(s.page)
      && ShowsList(r.page, Revert(s.page, None), ListFor(st.wordLists.value, SettingsPairKey(st.settings.value)), IsZh(st))
  {
    RevertAllRestores(s.page);
    RevertOriginal(s.page, None);
    ApplyListShows(Revert(s.page, None), ListFor(st.wordLists.value, SettingsPairKey(st.settings.value)), IsZh(st));
  }

  /** Switching on and then off again gives back the text a page without markers showed. */
  lemma ToggleOnOffRoundTrip(s: State, st: StoreView)
    requires NoMarkers(s.page)
    ensures Visible(Step(Step(s, ToggleSwap(true), st), ToggleSwap(false), st).page) == Visible(s.page)
  {
    var on := Step(s, ToggleSwap(true), st);
    StepKeepsOriginal(s, ToggleSwap(true), st);
    ToggleOffRestores(on, st);
    VisibleOfUnmarked(s.page);
  }

  /** A list update for the stored pair, with swapping on, shows that pair's updated list. */
  lemma ListUpdatedShowsList(s: State, key: string, st: StoreView)
    requires s.swapping && st.settings.Some? && key == SettingsPairKey(st.settings.value) && st.wordLists.Some?
    ensures var r := Step(s, WordListUpdated(key), st);
      && r.swapping
      && Original(r.page) == Original(s.page)
      && ShowsList(r.page, Revert(s.page, None), ListFor(st.wordLists.value, key), IsZh(st))
  {
    RevertAllRestores(s.page);
    RevertOriginal(s.page, None);
    ApplyListShows(Revert(s.page, None), ListFor(st.wordLists.value, key), IsZh(st));
  }

  /** New settings, with swapping on, show the list of the pair the message names. */
  lemma SettingsUpdatedShowsNewPair(s: State, settings: StoredSettings, st: StoreView)
    requires s.swapping && st.wordLists.Some?
    ensures var r := Step(s, SettingsUpdated(settings), st);
      && r.swapping
      && Original(r.page) == Original(s.page)
      && ShowsList(r.page, Revert(s.page, None), ListFor(st.wordLists.value, SettingsPairKey(settings)), IsZh(st))
  {
    RevertAllRestores(s.page);
    RevertOriginal(s.page, None);
    ApplyListShows(Revert(s.page, None), ListFor(st.wordLists.value, SettingsPairKey(settings)), IsZh(st));
  }

  /** Deleting a word of the stored pair reverts exactly that word's markers. */
  lemma WordDeletedRevertsOnlyThatWord(s: State, word: string, key: string, st: StoreView)
    requires s.swapping && st.settings.Some? && key == SettingsPairKey(st.settings.value)
    ensures var r := Step(s, WordDeleted(word, key), st);
      && Original(r.page) == Original(s.page)
      && forall x :: x in r.page && x.Marker? <==> x in s.page && x.Marker? && !EqualsIgnoreCase(x.title, word)
  {
    RevertOriginal(s.page, Some(word));
    RevertMarkers(s.page, Some(word));
  }

  /** Adding or editing a word of the stored pair: every marker of the word shows the new
      translation, no scanned text node still holds the word, and the markers of other words
      are exactly those the page already had. */
  lemma WordChangedShowsTranslation(s: State, word: string, translation: string, key: string, st: StoreView)
    requires s.swapping && st.settings.Some? && key == SettingsPairKey(st.settings.value)
    ensures var r := WordChanged(s, word, translation, key, st);
      && Original(r.page) == Original(s.page)
      && (forall x :: x in r.page && Selected(x, word) ==> x.shown == translation)
      && (forall x :: x in r.page ==> !Eligible(x, PatternFor(word, IsZh(st))))
      && (forall x :: x in r.page && x.Marker? && !Selected(x, word) ==> x in s.page)
      && (forall x :: x in s.page && x.Marker? && !Selected(x, word) ==> x in r.page)
  {
    var reverted := Revert(s.page, Some(word));
    var r := WordChanged(s, word, translation, key, st);
    RevertOriginal(s.page, Some(word));
    ReplaceWordsOriginal(reverted, word, translation, IsZh(st));
    RevertMarkers(s.page, Some(word));
    ScanComplete(Refresh(reverted, word, translation), PatternFor(word, IsZh(st)), translation);
    forall x | x in r.page && x.Marker?
      ensures (Selected(x, word) ==> x.shown == translation) && (!Selected(x, word) ==> x in s.page)
    {
      ReplaceWordsMarkers(reverted, word, translation, IsZh(st), x);
    }
    forall x | x in s.page && x.Marker? && !Selected(x, word) ensures x in r.page {
      ReplaceWordsKeepsMarkers(reverted, word, translation, IsZh(st), x);
    }
  }

  /** The initial load of a page without markers: the flag comes from storage (on by
      default); with swapping on and settings stored, the page shows the stored pair's list,
      and otherwise it is left alone. */
  lemma BootShowsActiveList(d: Doc, st: StoreView)
    requires NoMarkers(d)
    ensures var r := Boot(d, st);
      && r.swapping == st.isEnabled.GetOr(true)
      && (r.swapping && st.settings.Some? ==>
            ShowsList(r.page, d, ListFor(st.wordLists.GetOr(map[]), SettingsPairKey(st.settings.value)), IsZh(st)))
      && (!r.swapping || st.settings.None? ==> r.page == d)
  {
    if st.isEnabled.GetOr(true) && st.settings.Some? {
      ApplyListShows(d, ListFor(st.wordLists.GetOr(map[]), SettingsPairKey(st.settings.value)), IsZh(st));
    }
  }

  // ---------------------------------------------------------------- DOM work

  /** The tree walker: the positions of the leaves its filter accepts, in document order. */
  method CollectTextNodes(d: Doc, p: Pattern) returns (nodes: seq<nat>)
    ensures forall k :: 0 <= k < |nodes| ==> nodes[k] < |d| && Eligible(d[nodes[k]], p)
    ensures forall i :: 0 <= i < |d| && Eligible(d[i], p) ==> i in nodes
    ensures forall j, k :: 0 <= j < k < |nodes| ==> nodes[j] < nodes[k]
  {
    nodes := [];
    var i := 0;
    while i < |d|
      invariant 0 <= i <= |d|
      invariant forall k :: 0 <= k < |nodes| ==> nodes[k] < i && Eligible(d[nodes[k]], p)
      invariant forall j :: 0 <= j < i && Eligible(d[j], p) ==> j in nodes
      invariant forall j, k :: 0 <= j < k < |nodes| ==> nodes[j] < nodes[k]
    {
      if Eligible(d[i], p) {
        nodes := nodes + [i];
      }
      i := i + 1;
    }
  }

  /** `parts.forEach((part, index) => ...)`: the fragment for one text node, appended to
      piece by piece. */
  method BuildFragment(path: seq<Tag>, parts: seq<string>, matches: seq<string>, translation: string) returns (frag: Doc)
    requires |parts| == |matches| + 1
    ensures frag == Fragment(path, parts, matches, translation)
  {
    frag := [];
    var i := 0;
    while i < |parts|
      invariant 0 <= i <= |parts|
      invariant i < |parts| ==> frag + Fragment(path, parts[i..], matches[i..], translation) == Fragment(path, parts, matches, translation)
      invariant i == |parts| ==> frag == Fragment(path, parts, matches, translation)
    {
      FragmentFrom(path, parts, matches, translation, i);
      ghost var before := frag;
      if parts[i] != [] {
        frag := frag + [Text(path, parts[i])];
      }
      assert frag == before + TextPiece(path, parts[i]);
      if i < |matches| {
        frag := frag + [Marker(path, matches[i], translation)];
        assert frag + Fragment(path, parts[i + 1..], matches[i + 1..], translation)
          == before + Fragment(path, parts[i..], matches[i..], translation);
      }
      i := i + 1;
    }
  }

  /** The content script of one page. */
  class ContentScript {
    var swapping: bool
    var page: Doc

    /** The initial load. */
    constructor (d: Doc, st: StoreView)
      ensures State(swapping, page) == Boot(d, st)
    {
      swapping := st.isEnabled.GetOr(true);
      page := d;
      new;
      if swapping && st.settings.Some? {
        ApplyList(ListFor(st.wordLists.GetOr(map[]), SettingsPairKey(st.settings.value)), IsZh(st));
      }
    }

    /** `querySelectorAll('.linguaswap-word').forEach(el => ... el.outerHTML = title)`, for
        every marker or for those of one word. */
    method RevertMarkers(filter: Option<string>)
      modifies this
      ensures page == Revert(old(page), filter) && swapping == old(swapping)
    {
      var d := page;
      var out: Doc := [];
      var i := 0;
      while i < |d|
        invariant 0 <= i <= |d|
        invariant out == Revert(d[..i], filter)
        invariant swapping == old(swapping)
      {
        RevertPrefix(d, i, filter);
        out := out + RevertLeaf(d[i], filter);
        i := i + 1;
      }
      assert d[..|d|] == d;
      page := out;
    }

    /** The first loop of `replaceWords`: markers of the word show the translation. */
    method RefreshMarkers(word: string, translation: string)
      modifies this
      ensures page == Refresh(old(page), word, translation) && swapping == old(swapping)
    {
      var i := 0;
      while i < |page|
        invariant 0 <= i <= |page| == |old(page)|
        invariant forall k :: 0 <= k < i ==> page[k] == RefreshLeaf(old(page)[k], word, translation)
        invariant forall k :: i <= k < |page| ==> page[k] == old(page)[k]
        invariant swapping == old(swapping)
      {
        if Selected(page[i], word) {
          page := page[i := page[i].(shown := translation)];
        }
        i := i + 1;
      }
    }

    /** The deferred part of `replaceWords`: collect the accepted text nodes, then replace
        each by its fragment. */
    method ScanPage(p: Pattern, translation: string)
      modifies this
      ensures page == Scan(old(page), p, translation) && swapping == old(swapping)
    {
      var d := page;
      var nodes := CollectTextNodes(d, p);
      var out: Doc := [];
      var i, j := 0, 0;
      while i < |d|
        invariant 0 <= i <= |d| && 0 <= j <= |nodes|
        invariant forall k :: 0 <= k < j ==> nodes[k] < i
        invariant j < |nodes| ==> nodes[j] >= i
        invariant out == Scan(d[..i], p, translation)
        invariant swapping == old(swapping)
      {
        ScanPrefix(d, i, p, translation);
        if Eligible(d[i], p) {
          assert i in nodes;
          var k :| 0 <= k < |nodes| && nodes[k] == i;
          assert k == j;
        }
        if j < |nodes| && nodes[j] == i {
          var pieces := Split(p, d[i].data);
          var frag := BuildFragment(d[i].path, pieces.parts, pieces.matches, translation);
          out := out + frag;
          j := j + 1;
        } else {
          out := out + [d[i]];
        }
        i := i + 1;
      }
      assert d[..|d|] == d;
      page := out;
    }

    /** `replaceWords(word, translation)`. */
    method ReplaceWords(word: string, translation: string, chineseSource: bool)
      modifies this
      ensures page == Page.ReplaceWords(old(page), word, translation, chineseSource) && swapping == old(swapping)
    {
      RefreshMarkers(word, translation);
      ScanPage(PatternFor(word, chineseSource), translation);
    }

    /** `Object.entries(list).forEach(([w, t]) => replaceWords(w, t))`: the refreshes run at
        once, the rewrites when their storage reads return, in call order. */
    method ApplyList(entries: seq<Entry>, chineseSource: bool)
      modifies this
      ensures page == Page.ApplyList(old(page), entries, chineseSource) && swapping == old(swapping)
    {
      RefreshAll(entries);
      ScanAll(entries, chineseSource);
    }

    /** The synchronous refresh step of every `replaceWords` call of a list, in order. */
    method RefreshAll(entries: seq<Entry>)
      modifies this
      ensures page == RefreshList(old(page), entries) && swapping == old(swapping)
    {
      ghost var d := page;
      var i := 0;
      while i < |entries|
        invariant 0 <= i <= |entries|
        invariant page == RefreshList(d, entries[..i]) && swapping == old(swapping)
      {
        assert entries[..i + 1][..i] == entries[..i];
        RefreshMarkers(entries[i].0, entries[i].1);
        i := i + 1;
      }
      assert entries[..|entries|] == entries;
    }

    /** The deferred scans of every `replaceWords` call of a list, in order. */
    method ScanAll(entries: seq<Entry>, chineseSource: bool)
      modifies this
      ensures page == ScanList(old(page), entries, chineseSource) && swapping == old(swapping)
    {
      ghost var d := page;
      var i := 0;
      while i < |entries|
        invariant 0 <= i <= |entries|
        invariant page == ScanList(d, entries[..i], chineseSource) && swapping == old(swapping)
      {
        assert entries[..i + 1][..i] == entries[..i];
        ScanPage(PatternFor(entries[i].0, chineseSource), entries[i].1);
        i := i + 1;
      }
      assert entries[..|entries|] == entries;
    }

    /** The message listener. */
    method Handle(msg: Message, st: StoreView)
      modifies this
      ensures State(swapping, page) == Step(old(State(swapping, page)), msg, st)
    {
      match msg
      case WordAdded(word, translation, key) =>
        if swapping && st.settings.Some? && key == SettingsPairKey(st.settings.value) {
          RevertMarkers(Some(word));
          ReplaceWords(word, translation, IsZh(st));
        }
      case WordEdited(word, translation, key) =>
        if swapping && st.settings.Some? && key == SettingsPairKey(st.settings.value) {
          RevertMarkers(Some(word));
          ReplaceWords(word, translation, IsZh(st));
        }
      case WordDeleted(word, key) =>
        if swapping && st.settings.Some? && key == SettingsPairKey(st.settings.value) {
          RevertMarkers(Some(word));
        }
      case ShowNotification(_) =>
      case ToggleSwap(on) =>
        swapping := on;
        if !on {
          RevertMarkers(None);
        } else if st.wordLists.Some? && st.settings.Some? {
          RevertMarkers(None);
          ApplyList(ListFor(st.wordLists.value, SettingsPairKey(st.settings.value)), IsZh(st));
        }
      case WordListUpdated(key) =>
        if swapping && st.settings.Some? && key == SettingsPairKey(st.settings.value) {
          RevertMarkers(None);
          if st.wordLists.Some? {
            ApplyList(ListFor(st.wordLists.value, key), IsZh(st));
          }
        }
      case SettingsUpdated(settings) =>
        if swapping {
          RevertMarkers(None);
          if st.wordLists.Some? {
            ApplyList(ListFor(st.wordLists.value, SettingsPairKey(settings)), IsZh(st));
          }
        }
    }
  }
}
