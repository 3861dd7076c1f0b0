/** The page as content.js sees it, and the pure effect of its three DOM operations:
    refreshing markers, rewriting matching text nodes into markers, and reverting markers.

    A page is the sequence of its leaves in document order. A leaf is a text node or a
    marker (`span.linguaswap-word`, whose `title` is the original text and whose single
    text child is the translation shown). Each leaf carries the tags of its ancestor
    elements, from the root down to its parent. The engine never adds or removes elements
    other than markers, so this view loses nothing it depends on. */
module Page {
  import opened Wrappers
  import opened Strings
  import opened Matcher
  import opened Store

  datatype Tag = H1 | H2 | H3 | H4 | H5 | H6 | P | Span | Li
               | Script | Style | Input | TextArea | OtherElement

  /** The elements `replaceWords` scans: h1-h6, p, span, li. */
  predicate IsContainer(t: Tag) {
    t.H1? || t.H2? || t.H3? || t.H4? || t.H5? || t.H6? || t.P? || t.Span? || t.Li?
  }

  /** The elements `shouldSkipElement` refuses: script, style, input, textarea. */
  predicate IsSkipTag(t: Tag) {
    t.Script? || t.Style? || t.Input? || t.TextArea?
  }

  datatype Leaf =
    | Text(path: seq<Tag>, data: string)
    | Marker(path: seq<Tag>, title: string, shown: string)

  type Doc = seq<Leaf>

  // ---------------------------------------------------------------- scanner

  predicate NoSkipTagUpTo(path: seq<Tag>, j: int) {
    forall k :: 0 <= k <= j && k < |path| ==> !IsSkipTag(path[k])
  }

  /** As written: some container above the node is not, and does not sit inside, a skipped
      element. Elements between that container and the node are not looked at. */
  predicate ScannedAsWritten(path: seq<Tag>) {
    exists j :: 0 <= j < |path| && IsContainer(path[j]) && NoSkipTagUpTo(path, j)
  }

  /** As intended: the node is inside some container and no ancestor at all is skipped. */
  predicate Scanned(path: seq<Tag>) {
    && (exists j :: 0 <= j < |path| && IsContainer(path[j]))
    && forall k :: 0 <= k < |path| ==> !IsSkipTag(path[k])
  }

  /** The tree walker's filter: a text node (a marker's own text is never offered) under a
      scanned container whose text holds a match. */
  predicate EligibleAsWritten(l: Leaf, p: Pattern) {
    l.Text? && ScannedAsWritten(l.path) && ContainsMatch(p, l.data)
  }

  predicate Eligible(l: Leaf, p: Pattern) {
    l.Text? && Scanned(l.path) && ContainsMatch(p, l.data)
  }

  /** The text of a textarea inside a list item is offered to the rewrite as written,
      although it sits inside an element the scanner means to skip. */
  lemma TextAreaTextEligibleAsWritten()
    ensures EligibleAsWritten(Text([Li, TextArea], "the cat"), PatternFor("cat", false))
    ensures !Eligible(Text([Li, TextArea], "the cat"), PatternFor("cat", false))
  {
    var t := "the cat";
    assert t == "the " + "cat";
    assert t[4..7] == "cat";
    assert MatchAt(PatternFor("cat", false), t, 4);
    assert NoSkipTagUpTo([Li, TextArea], 0);
    assert IsSkipTag([Li, TextArea][1]);
  }

  /** The corrected scanner offers exactly what the written one offers, minus every node
      that has a skipped element anywhere above it. */
  lemma ScannedIffAsWrittenWithoutSkipTags(path: seq<Tag>)
    ensures Scanned(path) <==> ScannedAsWritten(path) && forall k :: 0 <= k < |path| ==> !IsSkipTag(path[k])
  {
    if Scanned(path) {
      var j :| 0 <= j < |path| && IsContainer(path[j]);
      assert NoSkipTagUpTo(path, j);
    }
  }

  // ---------------------------------------------------------------- text read back

  function LeafOriginal(l: Leaf): string {
    match l
    case Text(_, d) => d
    case Marker(_, title, _) => title
  }

  function LeafVisible(l: Leaf): string {
    match l
    case Text(_, d) => d
    case Marker(_, _, shown) => shown
  }

  /** The page text read through the markers' titles: what the page said before any swap. */
  function Original(d: Doc): string {
    if d == [] then [] else LeafOriginal(d[0]) + Original(d[1..])
  }

  /** The page text as displayed. */
  function Visible(d: Doc): string {
    if d == [] then [] else LeafVisible(d[0]) + Visible(d[1..])
  }

  predicate NoMarkers(d: Doc) {
    forall l :: l in d ==> l.Text?
  }

  lemma {:induction false} OriginalAppend(a: Doc, b: Doc)
    ensures Original(a + b) == Original(a) + Original(b)
  {
    if a == [] {
      assert a + b == b;
    } else {
      assert (a + b)[0] == a[0];
      assert (a + b)[1..] == a[1..] + b;
      OriginalAppend(a[1..], b);
    }
  }

  /** Without markers the page shows its original text. */
  lemma {:induction false} VisibleOfUnmarked(d: Doc)
    requires NoMarkers(d)
    ensures Visible(d) == Original(d)
  {
    if d != [] {
      assert d[0] in d;
      VisibleOfUnmarked(d[1..]);
    }
  }

  // ---------------------------------------------------------------- fragments

  /** `if (part) fragment.appendChild(document.createTextNode(part))`. */
  function TextPiece(path: seq<Tag>, s: string): Doc {
    if s == [] then [] else [Text(path, s)]
  }

  /** The fragment built for one text node: each non-empty part as text, and after part i
      a marker titled with match i showing the translation. */
  function Fragment(path: seq<Tag>, parts: seq<string>, matches: seq<string>, translation: string): Doc
    requires |parts| == |matches| + 1
    decreases |matches|
  {
    if matches == [] then TextPiece(path, parts[0])
    else
      TextPiece(path, parts[0]) + [Marker(path, matches[0], translation)]
      + Fragment(path, parts[1..], matches[1..], translation)
  }

  /** The fragment from part i on: part i, then (if there is one) match i as a marker,
      then the fragment from part i + 1 on. */
  lemma FragmentFrom(path: seq<Tag>, parts: seq<string>, matches: seq<string>, translation: string, i: int)
    requires |parts| == |matches| + 1 && 0 <= i < |parts|
    ensures i < |matches| ==>
              Fragment(path, parts[i..], matches[i..], translation)
              == TextPiece(path, parts[i]) + [Marker(path, matches[i], translation)]
                 + Fragment(path, parts[i + 1..], matches[i + 1..], translation)
    ensures i == |matches| ==> Fragment(path, parts[i..], matches[i..], translation) == TextPiece(path, parts[i])
  {
    if i < |matches| {
      assert parts[i..][1..] == parts[i + 1..] && matches[i..][1..] == matches[i + 1..];
    } else {
      assert matches[i..] == [];
    }
  }

  /** The markers of a fragment, in order: one per match. */
  function MarkersOf(path: seq<Tag>, matches: seq<string>, translation: string): Doc {
    seq(|matches|, k requires 0 <= k < |matches| => Marker(path, matches[k], translation))
  }

  /** The markers of a page, in order. */
  function Markers(d: Doc): Doc {
    if d == [] then [] else (if d[0].Marker? then [d[0]] else []) + Markers(d[1..])
  }

  lemma {:induction false} MarkersAppend(a: Doc, b: Doc)
    ensures Markers(a + b) == Markers(a) + Markers(b)
  {
    if a == [] {
      assert a + b == b;
    } else {
      assert (a + b)[0] == a[0];
      assert (a + b)[1..] == a[1..] + b;
      MarkersAppend(a[1..], b);
    }
  }

  /** A fragment reads back, through the markers' titles, as the node text it replaces. */
  lemma {:induction false} FragmentOriginal(path: seq<Tag>, parts: seq<string>, matches: seq<string>, translation: string)
    requires |parts| == |matches| + 1
    ensures Original(Fragment(path, parts, matches, translation)) == Interleave(parts, matches)
    decreases |matches|
  {
    var head := TextPiece(path, parts[0]);
    assert Original(head) == parts[0] by {
      if parts[0] != [] {
        assert Original(head) == parts[0] + Original([]);
      }
    }
    if matches != [] {
      var m := [Marker(path, matches[0], translation)];
      var rest := Fragment(path, parts[1..], matches[1..], translation);
      assert Fragment(path, parts, matches, translation) == head + m + rest;
      FragmentOriginal(path, parts[1..], matches[1..], translation);
      OriginalAppend(head + m, rest);
      OriginalAppend(head, m);
      assert Original(m) == matches[0] + Original([]);
    }
  }

  /** The markers of a fragment are exactly one per match, in order, each titled with the
      matched text and showing the translation. */
  lemma {:induction false} FragmentMarkers(path: seq<Tag>, parts: seq<string>, matches: seq<string>, translation: string)
    requires |parts| == |matches| + 1
    ensures Markers(Fragment(path, parts, matches, translation)) == MarkersOf(path, matches, translation)
    decreases |matches|
  {
    var head := TextPiece(path, parts[0]);
    assert Markers(head) == [] by {
      if parts[0] != [] {
        assert Markers(head) == Markers([]);
      }
    }
    if matches != [] {
      var m := [Marker(path, matches[0], translation)];
      var rest := Fragment(path, parts[1..], matches[1..], translation);
      assert Fragment(path, parts, matches, translation) == head + m + rest;
      FragmentMarkers(path, parts[1..], matches[1..], translation);
      MarkersAppend(head + m, rest);
      MarkersAppend(head, m);
      assert Markers(m) == m + Markers([]);
      assert MarkersOf(path, matches, translation)
        == m + MarkersOf(path, matches[1..], translation);
    } else {
      assert MarkersOf(path, matches, translation) == [];
    }
  }

  /** Every leaf of a fragment stays under the replaced node's parent; its text nodes are
      non-empty parts, and its markers carry a match and show the translation. */
  lemma {:induction false} FragmentLeaves(path: seq<Tag>, parts: seq<string>, matches: seq<string>, translation: string)
    requires |parts| == |matches| + 1
    ensures var f := Fragment(path, parts, matches, translation);
      && (forall l :: l in f ==> l.path == path)
      && (forall l :: l in f && l.Text? ==> l.data != [] && l.data in parts)
      && (forall l :: l in f && l.Marker? ==> l.title in matches && l.shown == translation)
    decreases |matches|
  {
    if matches != [] {
      var f := Fragment(path, parts, matches, translation);
      var rest := Fragment(path, parts[1..], matches[1..], translation);
      FragmentLeaves(path, parts[1..], matches[1..], translation);
      forall l | l in f && l.Text? ensures l.data != [] && l.data in parts {
        if l in rest { assert l.data in parts[1..]; }
      }
      forall l | l in f && l.Marker? ensures l.title in matches && l.shown == translation {
        if l in rest { assert l.title in matches[1..]; }
      }
    }
  }

  // ---------------------------------------------------------------- leaf-wise maps

  /** Replaces every leaf by the leaves f gives for it, in order. */
  function FlatMap(d: Doc, f: Leaf -> Doc): Doc {
    if d == [] then [] else f(d[0]) + FlatMap(d[1..], f)
  }

  lemma {:induction false} FlatMapAppend(a: Doc, b: Doc, f: Leaf -> Doc)
    ensures FlatMap(a + b, f) == FlatMap(a, f) + FlatMap(b, f)
  {
    if a == [] {
      assert a + b == b;
    } else {
      assert (a + b)[0] == a[0];
      assert (a + b)[1..] == a[1..] + b;
      FlatMapAppend(a[1..], b, f);
    }
  }

  lemma {:induction false} FlatMapMember(d: Doc, f: Leaf -> Doc, x: Leaf)
    requires x in FlatMap(d, f)
    ensures exists l :: l in d && x in f(l)
  {
    if x !in f(d[0]) {
      FlatMapMember(d[1..], f, x);
      var l :| l in d[1..] && x in f(l);
      assert l in d;
    }
  }

  lemma {:induction false} FlatMapKeeps(d: Doc, f: Leaf -> Doc, x: Leaf)
    requires x in d && f(x) == [x]
    ensures x in FlatMap(d, f)
  {
    if d[0] != x {
      FlatMapKeeps(d[1..], f, x);
    }
  }

  lemma {:induction false} FlatMapIdentity(d: Doc, f: Leaf -> Doc)
    requires forall l :: l in d ==> f(l) == [l]
    ensures FlatMap(d, f) == d
  {
    if d != [] {
      assert d[0] in d;
      FlatMapIdentity(d[1..], f);
    }
  }

  lemma {:induction false} FlatMapOriginal(d: Doc, f: Leaf -> Doc)
    requires forall l :: l in d ==> Original(f(l)) == LeafOriginal(l)
    ensures Original(FlatMap(d, f)) == Original(d)
  {
    if d != [] {
      assert d[0] in d;
      FlatMapOriginal(d[1..], f);
      OriginalAppend(f(d[0]), FlatMap(d[1..], f));
    }
  }

  // ---------------------------------------------------------------- refresh

  /** A marker whose title equals the word, ignoring case. */
  predicate Selected(l: Leaf, word: string) {
    l.Marker? && EqualsIgnoreCase(l.title, word)
  }

  function RefreshLeaf(l: Leaf, word: string, translation: string): Leaf {
    if Selected(l, word) then l.(shown := translation) else l
  }

  /** The first loop of `replaceWords`: markers of the word now show the new translation. */
  function Refresh(d: Doc, word: string, translation: string): (r: Doc)
    ensures |r| == |d|
    ensures forall i :: 0 <= i < |d| && Selected(d[i], word) ==> r[i] == d[i].(shown := translation)
    ensures forall i :: 0 <= i < |d| && !Selected(d[i], word) ==> r[i] == d[i]
  {
    seq(|d|, i requires 0 <= i < |d| => RefreshLeaf(d[i], word, translation))
  }

  lemma {:induction false} RefreshOriginal(d: Doc, word: string, translation: string)
    ensures Original(Refresh(d, word, translation)) == Original(d)
  {
    if d != [] {
      assert Refresh(d, word, translation)[1..] == Refresh(d[1..], word, translation);
      RefreshOriginal(d[1..], word, translation);
    }
  }

  /** After a refresh every text node is one the page had, and every marker either is one
      the page had or is a marker of the word showing the new translation. */
  lemma RefreshOrigin(d: Doc, word: string, translation: string, x: Leaf)
    requires x in Refresh(d, word, translation)
    ensures x in d || (Selected(x, word) && x.shown == translation)
    ensures Selected(x, word) ==> x.shown == translation
    ensures x.Text? ==> x in d
  {
    var i :| 0 <= i < |d| && Refresh(d, word, translation)[i] == x;
  }

  /** A refresh that finds no marker of the word changes nothing. */
  lemma RefreshWithoutSelected(d: Doc, word: string, translation: string)
    requires forall l :: l in d ==> !Selected(l, word)
    ensures Refresh(d, word, translation) == d
  {
    var r := Refresh(d, word, translation);
    forall i | 0 <= i < |d| ensures r[i] == d[i] {
      assert d[i] in d;
    }
  }

  // ---------------------------------------------------------------- rewrite

  /** The second part of `replaceWords` for one leaf: an eligible text node is replaced by
      its fragment; every other leaf is left alone. */
  function RewriteLeaf(l: Leaf, p: Pattern, translation: string): Doc {
    if Eligible(l, p) then
      var s := Split(p, l.data);
      Fragment(l.path, s.parts, s.matches, translation)
    else [l]
  }

  function Scan(d: Doc, p: Pattern, translation: string): Doc {
    FlatMap(d, l => RewriteLeaf(l, p, translation))
  }

  /** `replaceWords(word, translation)`: refresh, then rewrite. */
  function ReplaceWords(d: Doc, word: string, translation: string, chineseSource: bool): Doc {
    Scan(Refresh(d, word, translation), PatternFor(word, chineseSource), translation)
  }

  /** The synchronous first halves of `replaceWords` for every entry, in call order. */
  function RefreshList(d: Doc, entries: seq<Entry>): Doc
    decreases |entries|
  {
    if entries == [] then d
    else
      var e := entries[|entries| - 1];
      Refresh(RefreshList(d, entries[..|entries| - 1]), e.0, e.1)
  }

  /** The deferred second halves of `replaceWords`, each run from its storage callback,
      in call order. */
  function ScanList(d: Doc, entries: seq<Entry>, chineseSource: bool): Doc
    decreases |entries|
  {
    if entries == [] then d
    else
      var e := entries[|entries| - 1];
      Scan(ScanList(d, entries[..|entries| - 1], chineseSource), PatternFor(e.0, chineseSource), e.1)
  }

  /** `Object.entries(list).forEach(([w, t]) => replaceWords(w, t))`: every refresh runs
      before the first rewrite, because each rewrite waits for a storage read. */
  function ApplyList(d: Doc, entries: seq<Entry>, chineseSource: bool): Doc {
    ScanList(RefreshList(d, entries), entries, chineseSource)
  }

  lemma RewriteLeafOriginal(l: Leaf, p: Pattern, translation: string)
    ensures Original(RewriteLeaf(l, p, translation)) == LeafOriginal(l)
  {
    if Eligible(l, p) {
      var s := Split(p, l.data);
      SplitFacts(p, l.data);
      FragmentOriginal(l.path, s.parts, s.matches, translation);
    } else {
      assert Original([l]) == LeafOriginal(l) + Original([]);
    }
  }

  /** Where each leaf after a rewrite comes from: an ineligible leaf of the page, kept as is;
      a marker showing the translation whose title is the text of a match in an eligible text
      node under the same parent; or a non-empty part of an eligible text node, under the same
      parent, holding no new match. */
  lemma ScanOrigin(d: Doc, p: Pattern, translation: string, x: Leaf)
    requires x in Scan(d, p, translation)
    ensures || (x in d && !Eligible(x, p))
            || (&& x.Marker? && SameText(p, x.title) && x.shown == translation
                && exists l :: l in d && Eligible(l, p) && l.path == x.path && IsMatchOf(p, l.data, x.title))
            || (&& x.Text? && x.data != []
                && exists l :: && l in d && Eligible(l, p) && l.path == x.path
                                && x.data in Split(p, l.data).parts && NoNewMatches(p, l.data, x.data))
  {
    FlatMapMember(d, l => RewriteLeaf(l, p, translation), x);
    var l :| l in d && x in RewriteLeaf(l, p, translation);
    if Eligible(l, p) {
      var s := Split(p, l.data);
      SplitFacts(p, l.data);
      FragmentLeaves(l.path, s.parts, s.matches, translation);
      if x.Marker? {
        SplitMatchesAreMatches(p, l.data);
        assert IsMatchOf(p, l.data, x.title);
      }
    }
  }

  /** Rewriting leaves no scanned text node holding a match: every occurrence became a marker. */
  lemma ScanComplete(d: Doc, p: Pattern, translation: string)
    ensures forall x :: x in Scan(d, p, translation) ==> !Eligible(x, p)
  {
    forall x | x in Scan(d, p, translation) ensures !Eligible(x, p) {
      ScanOrigin(d, p, translation, x);
    }
  }

  /** Nothing under a script, style, input or textarea element is touched by a rewrite:
      every leaf there afterwards is one the page already had. */
  lemma ScanSparesSkipped(d: Doc, p: Pattern, translation: string)
    ensures forall x :: x in Scan(d, p, translation) && (exists k :: 0 <= k < |x.path| && IsSkipTag(x.path[k])) ==> x in d
  {
    forall x | x in Scan(d, p, translation) && (exists k :: 0 <= k < |x.path| && IsSkipTag(x.path[k]))
      ensures x in d
    {
      FlatMapMember(d, l => RewriteLeaf(l, p, translation), x);
      var l :| l in d && x in RewriteLeaf(l, p, translation);
      if Eligible(l, p) {
        var s := Split(p, l.data);
        FragmentLeaves(l.path, s.parts, s.matches, translation);
        assert false;
      }
    }
  }

  // ---------------------------------------------------------------- revert

  /** The markers a revert replaces: all of them, or those whose title equals the filter
      word ignoring case. */
  predicate Reverts(l: Leaf, filter: Option<string>) {
    l.Marker? && (filter.None? || EqualsIgnoreCase(l.title, filter.value))
  }

  /** `el.outerHTML = el.getAttribute('title')`: the marker becomes its title as text
      (an empty title removes it). */
  function RevertLeaf(l: Leaf, filter: Option<string>): Doc {
    if Reverts(l, filter) then TextPiece(l.path, l.title) else [l]
  }

  function Revert(d: Doc, filter: Option<string>): Doc {
    FlatMap(d, l => RevertLeaf(l, filter))
  }

  lemma RevertOriginal(d: Doc, filter: Option<string>)
    ensures Original(Revert(d, filter)) == Original(d)
  {
    forall l | l in d ensures Original(RevertLeaf(l, filter)) == LeafOriginal(l) {
      if Reverts(l, filter) && l.title != [] {
        assert Original([Text(l.path, l.title)]) == l.title + Original([]);
      } else if !Reverts(l, filter) {
        assert Original([l]) == LeafOriginal(l) + Original([]);
      }
    }
    FlatMapOriginal(d, l => RevertLeaf(l, filter));
  }

  /** After a revert no leaf is a marker it selects; the markers it keeps are exactly the
      page's markers it does not select; and every text node it adds holds the title of a
      selected marker, under the same parent. */
  lemma RevertMarkers(d: Doc, filter: Option<string>)
    ensures forall x :: x in Revert(d, filter) ==> !Reverts(x, filter)
    ensures forall x :: x in Revert(d, filter) && x.Marker? <==> x in d && x.Marker? && !Reverts(x, filter)
    ensures forall x :: x in Revert(d, filter) && x !in d ==>
      exists m :: m in d && Reverts(m, filter) && x == Text(m.path, m.title)
  {
    var f := l => RevertLeaf(l, filter);
    forall x | x in Revert(d, filter)
      ensures !Reverts(x, filter) && (x.Marker? ==> x in d)
      ensures x !in d ==> exists m :: m in d && Reverts(m, filter) && x == Text(m.path, m.title)
    {
      FlatMapMember(d, f, x);
      var l :| l in d && x in f(l);
      if Reverts(l, filter) {
        assert x == Text(l.path, l.title);
      }
    }
    forall x | x in d && x.Marker? && !Reverts(x, filter) ensures x in Revert(d, filter) {
      var i :| 0 <= i < |d| && d[i] == x;
      FlatMapAppend(d[..i], d[i..], f);
      assert d[..i] + d[i..] == d;
      assert d[i..] == [x] + d[i + 1..];
      FlatMapAppend([x], d[i + 1..], f);
      assert FlatMap([x], f) == [x] + FlatMap([], f);
    }
  }

  /** A revert that selects no marker changes nothing. */
  lemma RevertWithoutSelectedMarkers(d: Doc, filter: Option<string>)
    requires forall l :: l in d ==> !Reverts(l, filter)
    ensures Revert(d, filter) == d
  {
    FlatMapIdentity(d, l => RevertLeaf(l, filter));
  }

  /** Reverting twice is reverting once. */
  lemma RevertIdempotent(d: Doc, filter: Option<string>)
    ensures Revert(Revert(d, filter), filter) == Revert(d, filter)
  {
    RevertMarkers(d, filter);
    RevertWithoutSelectedMarkers(Revert(d, filter), filter);
  }

  /** Unswapping a word and then refreshing the same word changes nothing more: the revert
      left no marker of the word for the refresh to update. */
  lemma RefreshAfterRevert(d: Doc, word: string, translation: string)
    ensures Refresh(Revert(d, Some(word)), word, translation) == Revert(d, Some(word))
  {
    RevertMarkers(d, Some(word));
    RefreshWithoutSelected(Revert(d, Some(word)), word, translation);
  }

  /** Reverting every marker shows the original page text again and leaves no marker. */
  lemma RevertAllRestores(d: Doc)
    ensures NoMarkers(Revert(d, None))
    ensures Visible(Revert(d, None)) == Original(d)
  {
    RevertMarkers(d, None);
    RevertOriginal(d, None);
    VisibleOfUnmarked(Revert(d, None));
  }

  // ---------------------------------------------------------------- replaceWords

  lemma ReplaceWordsOriginal(d: Doc, word: string, translation: string, chineseSource: bool)
    ensures Original(ReplaceWords(d, word, translation, chineseSource)) == Original(d)
  {
    var p := PatternFor(word, chineseSource);
    var r := Refresh(d, word, translation);
    RefreshOriginal(d, word, translation);
    forall l | l in r ensures Original(RewriteLeaf(l, p, translation)) == LeafOriginal(l) {
      RewriteLeafOriginal(l, p, translation);
    }
    FlatMapOriginal(r, l => RewriteLeaf(l, p, translation));
  }

  /** Round trip: on a page without markers, swapping a word in and then reverting every
      marker gives back exactly the text the page showed, for any translation. */
  lemma RoundTrip(d: Doc, word: string, translation: string, chineseSource: bool)
    requires NoMarkers(d)
    ensures Visible(Revert(ReplaceWords(d, word, translation, chineseSource), None)) == Visible(d)
  {
    RevertAllRestores(ReplaceWords(d, word, translation, chineseSource));
    ReplaceWordsOriginal(d, word, translation, chineseSource);
    VisibleOfUnmarked(d);
  }

  /** Each marker after `replaceWords` is one the page had, or is a marker of the word
      (its title is the word up to case) showing the translation. */
  lemma ReplaceWordsMarkers(d: Doc, word: string, translation: string, chineseSource: bool, x: Leaf)
    requires x in ReplaceWords(d, word, translation, chineseSource) && x.Marker?
    ensures x in d || (Selected(x, word) && x.shown == translation)
  {
    var p := PatternFor(word, chineseSource);
    var r := Refresh(d, word, translation);
    ScanOrigin(r, p, translation, x);
    if x in r && !Eligible(x, p) {
      RefreshOrigin(d, word, translation, x);
    }
  }

  /** A rewrite keeps every leaf its filter does not accept. */
  lemma ScanKeepsIneligible(d: Doc, p: Pattern, translation: string, x: Leaf)
    requires x in d && !Eligible(x, p)
    ensures x in Scan(d, p, translation)
  {
    FlatMapKeeps(d, l => RewriteLeaf(l, p, translation), x);
  }

  /** `replaceWords` keeps every marker of another word: the refresh leaves it as it is and
      the rewrite never offers a marker to its filter. */
  lemma ReplaceWordsKeepsMarkers(d: Doc, word: string, translation: string, chineseSource: bool, x: Leaf)
    requires x in d && x.Marker? && !Selected(x, word)
    ensures x in ReplaceWords(d, word, translation, chineseSource)
  {
    var r := Refresh(d, word, translation);
    var i :| 0 <= i < |d| && d[i] == x;
    assert r[i] == x;
    ScanKeepsIneligible(r, PatternFor(word, chineseSource), translation, x);
  }

  /** `replaceWords` is idempotent: a second call with the same word and translation finds
      nothing to refresh and nothing to rewrite. */
  lemma ReplaceWordsIdempotent(d: Doc, word: string, translation: string, chineseSource: bool)
    ensures ReplaceWords(ReplaceWords(d, word, translation, chineseSource), word, translation, chineseSource)
         == ReplaceWords(d, word, translation, chineseSource)
  {
    var p := PatternFor(word, chineseSource);
    var once := ReplaceWords(d, word, translation, chineseSource);
    forall i | 0 <= i < |once| ensures RefreshLeaf(once[i], word, translation) == once[i] {
      if once[i].Marker? {
        ReplaceWordsMarkers(d, word, translation, chineseSource, once[i]);
        if once[i] in d && Selected(once[i], word) {
          var r := Refresh(d, word, translation);
          ScanOrigin(r, p, translation, once[i]);
          if once[i] in r {
            var k :| 0 <= k < |r| && r[k] == once[i];
          }
        }
      }
    }
    assert Refresh(once, word, translation) == once;
    ScanComplete(Refresh(d, word, translation), p, translation);
    FlatMapIdentity(once, l => RewriteLeaf(l, p, translation));
  }

  // ---------------------------------------------------------------- applying a list

  /** Some text node of the page under the given parent is accepted by the filter for the
      pattern: it is scanned and holds a match. */
  ghost predicate OccursUnder(d: Doc, path: seq<Tag>, q: Pattern) {
    exists l :: l in d && l.path == path && Eligible(l, q)
  }

  /** The marker shows the translation of some entry whose word is its title, up to case, and
      that word, as the entry's pattern finds it (a whole word unless the source is Chinese),
      occurs in a scanned text node of the original page under the marker's parent. */
  ghost predicate Justified(x: Leaf, orig: Doc, entries: seq<Entry>, chineseSource: bool) {
    exists k :: && 0 <= k < |entries| && Selected(x, entries[k].0) && x.shown == entries[k].1
                && OccursUnder(orig, x.path, PatternFor(entries[k].0, chineseSource))
  }

  /** What a page showing a word list over an original page looks like: it reads back as the
      original text, every marker belongs to an entry whose word occurs where the marker is,
      and no scanned text node still holds an entry's word. */
  ghost predicate ShowsList(page: Doc, orig: Doc, entries: seq<Entry>, chineseSource: bool) {
    && Original(page) == Original(orig)
    && (forall x :: x in page && x.Marker? ==> Justified(x, orig, entries, chineseSource))
    && (forall x, k :: x in page && 0 <= k < |entries| ==> !Eligible(x, PatternFor(entries[k].0, chineseSource)))
  }

  lemma SameTextSelected(word: string, chineseSource: bool, s: string)
    requires SameText(PatternFor(word, chineseSource), s)
    ensures EqualsIgnoreCase(s, word)
  {
  }

  /** A refresh on a page without markers changes nothing. */
  lemma RefreshUnmarked(d: Doc, word: string, translation: string)
    requires NoMarkers(d)
    ensures Refresh(d, word, translation) == d
  {
    forall i | 0 <= i < |d| ensures RefreshLeaf(d[i], word, translation) == d[i] {
      assert d[i] in d;
    }
  }

  lemma {:induction false} RefreshListUnmarked(d: Doc, entries: seq<Entry>)
    requires NoMarkers(d)
    ensures RefreshList(d, entries) == d
    decreases |entries|
  {
    if entries != [] {
      var e := entries[|entries| - 1];
      RefreshListUnmarked(d, entries[..|entries| - 1]);
      RefreshUnmarked(d, e.0, e.1);
    }
  }

  lemma {:induction false} RefreshListOriginal(d: Doc, entries: seq<Entry>)
    ensures Original(RefreshList(d, entries)) == Original(d)
    decreases |entries|
  {
    if entries != [] {
      var e := entries[|entries| - 1];
      RefreshListOriginal(d, entries[..|entries| - 1]);
      RefreshOriginal(RefreshList(d, entries[..|entries| - 1]), e.0, e.1);
    }
  }

  lemma ScanOriginal(d: Doc, p: Pattern, translation: string)
    ensures Original(Scan(d, p, translation)) == Original(d)
  {
    forall l | l in d ensures Original(RewriteLeaf(l, p, translation)) == LeafOriginal(l) {
      RewriteLeafOriginal(l, p, translation);
    }
    FlatMapOriginal(d, l => RewriteLeaf(l, p, translation));
  }

  lemma {:induction false} ScanListOriginal(d: Doc, entries: seq<Entry>, chineseSource: bool)
    ensures Original(ScanList(d, entries, chineseSource)) == Original(d)
    decreases |entries|
  {
    if entries != [] {
      var e := entries[|entries| - 1];
      ScanListOriginal(d, entries[..|entries| - 1], chineseSource);
      ScanOriginal(ScanList(d, entries[..|entries| - 1], chineseSource), PatternFor(e.0, chineseSource), e.1);
    }
  }

  /** A text node the rewrites leave that the filter accepts for a word of the list's mode
      comes from an accepted node of the original page under the same parent: the rewrites
      only cut text nodes into parts, and a part holds no match its node lacked. */
  lemma {:induction false} ScanListOccursBack(d: Doc, entries: seq<Entry>, chineseSource: bool, word: string, l: Leaf)
    requires l in ScanList(d, entries, chineseSource) && Eligible(l, PatternFor(word, chineseSource))
    ensures OccursUnder(d, l.path, PatternFor(word, chineseSource))
    decreases |entries|
  {
    if entries == [] {
      assert l in d && l.path == l.path;
    } else {
      var n := |entries| - 1;
      var prev := ScanList(d, entries[..n], chineseSource);
      var p := PatternFor(entries[n].0, chineseSource);
      ScanOrigin(prev, p, entries[n].1, l);
      if l in prev && !Eligible(l, p) {
        ScanListOccursBack(d, entries[..n], chineseSource, word, l);
      } else {
        var src :| && src in prev && Eligible(src, p) && src.path == l.path
                   && l.data in Split(p, src.data).parts && NoNewMatches(p, src.data, l.data);
        assert ContainsMatch(PatternFor(word, chineseSource), l.data);
        assert Eligible(src, PatternFor(word, chineseSource));
        ScanListOccursBack(d, entries[..n], chineseSource, word, src);
      }
    }
  }

  /** Starting from a page without markers, every marker the rewrites create shows the
      translation of an entry whose word is the marker's title up to case, and that word
      occurs in an accepted text node of the page under the marker's parent. */
  lemma {:induction false} ScanListJustified(d: Doc, entries: seq<Entry>, chineseSource: bool)
    requires NoMarkers(d)
    ensures forall x :: x in ScanList(d, entries, chineseSource) && x.Marker? ==> Justified(x, d, entries, chineseSource)
    decreases |entries|
  {
    if entries != [] {
      var n := |entries| - 1;
      var e := entries[n];
      var prev := ScanList(d, entries[..n], chineseSource);
      var p := PatternFor(e.0, chineseSource);
      ScanListJustified(d, entries[..n], chineseSource);
      forall x | x in ScanList(d, entries, chineseSource) && x.Marker?
        ensures Justified(x, d, entries, chineseSource)
      {
        ScanOrigin(prev, p, e.1, x);
        if x in prev && !Eligible(x, p) {
          var k :| && 0 <= k < n && Selected(x, entries[..n][k].0) && x.shown == entries[..n][k].1
                   && OccursUnder(d, x.path, PatternFor(entries[..n][k].0, chineseSource));
          assert entries[..n][k] == entries[k];
        } else {
          SameTextSelected(e.0, chineseSource, x.title);
          var l :| l in prev && Eligible(l, p) && l.path == x.path && IsMatchOf(p, l.data, x.title);
          ScanListOccursBack(d, entries[..n], chineseSource, e.0, l);
          assert Selected(x, entries[n].0);
        }
      }
    }
  }

  /** After the rewrites no scanned text node holds a match of any entry's word: a later
      rewrite only cuts text nodes into parts, which hold no match an earlier one missed. */
  lemma {:induction false} ScanListComplete(d: Doc, entries: seq<Entry>, chineseSource: bool)
    ensures forall x, k :: (x in ScanList(d, entries, chineseSource) && 0 <= k < |entries|
                           ==> !Eligible(x, PatternFor(entries[k].0, chineseSource)))
    decreases |entries|
  {
    if entries != [] {
      var n := |entries| - 1;
      var e := entries[n];
      var prev := ScanList(d, entries[..n], chineseSource);
      var p := PatternFor(e.0, chineseSource);
      ScanListComplete(d, entries[..n], chineseSource);
      forall x, k | x in ScanList(d, entries, chineseSource) && 0 <= k < |entries|
        ensures !Eligible(x, PatternFor(entries[k].0, chineseSource))
      {
        var q := PatternFor(entries[k].0, chineseSource);
        ScanOrigin(prev, p, e.1, x);
        if k == n {
          ScanComplete(prev, p, e.1);
        } else if x in prev && !Eligible(x, p) {
          assert entries[..n][k] == entries[k];
        } else {
          assert entries[..n][k] == entries[k];
        }
      }
    }
  }

  /** Applying a word list to a page without markers keeps its text and shows the list. */
  lemma ApplyListShows(d: Doc, entries: seq<Entry>, chineseSource: bool)
    requires NoMarkers(d)
    ensures ShowsList(ApplyList(d, entries, chineseSource), d, entries, chineseSource)
  {
    RefreshListUnmarked(d, entries);
    ScanListOriginal(d, entries, chineseSource);
    ScanListJustified(d, entries, chineseSource);
    ScanListComplete(d, entries, chineseSource);
  }

  /** The list `cat` to `Katze` is not shown by a marker cut out of "category": a page whose
      only text is "the category" holds no whole-word "cat" under that parent. */
  lemma MarkerInsideWordNotShown()
    ensures !ShowsList([Text([P], "the "), Marker([P], "cat", "Katze"), Text([P], "egory")],
                       [Text([P], "the category")], [("cat", "Katze")], false)
  {
    var t := "the category";
    var q := PatternFor("cat", false);
    assert Lower("cat")[0] == 'c';
    forall i | 0 <= i < |t| ensures !MatchAt(q, t, i) {
      if i == 4 {
        assert IsWordChar(t[6]) && IsWordChar(t[7]);
      } else if i + 3 <= |t| {
        assert Lower(t[i..i + 3])[0] == LowerChar(t[i]) != 'c';
      }
    }
    assert !ContainsMatch(q, t);
    assert Marker([P], "cat", "Katze") in [Text([P], "the "), Marker([P], "cat", "Katze"), Text([P], "egory")];
  }

  /** Text the HTML parser reads back as itself: no tag opener and no character reference. */
  predicate Inert(s: string) {
    forall i :: 0 <= i < |s| ==> s[i] != '<' && s[i] != '&'
  }

  /** A marker's title equals its word up to ASCII case, so it is inert when the word is:
      reverting it through `outerHTML` puts back exactly its title as text. */
  lemma TitleInert(title: string, word: string)
    requires EqualsIgnoreCase(title, word) && Inert(word)
    ensures Inert(title)
  {
    forall i | 0 <= i < |title| ensures title[i] != '<' && title[i] != '&' {
      assert Lower(title)[i] == Lower(word)[i];
    }
  }

  // ---------------------------------------------------------------- one leaf at a time

  lemma FlatMapPrefix(d: Doc, i: int, f: Leaf -> Doc)
    requires 0 <= i < |d|
    ensures FlatMap(d[..i + 1], f) == FlatMap(d[..i], f) + f(d[i])
  {
    assert d[..i + 1] == d[..i] + [d[i]];
    FlatMapAppend(d[..i], [d[i]], f);
    assert FlatMap([d[i]], f) == f(d[i]) + FlatMap([], f);
  }

  lemma RevertPrefix(d: Doc, i: int, filter: Option<string>)
    requires 0 <= i < |d|
    ensures Revert(d[..i + 1], filter) == Revert(d[..i], filter) + RevertLeaf(d[i], filter)
  {
    FlatMapPrefix(d, i, l => RevertLeaf(l, filter));
  }

  lemma ScanPrefix(d: Doc, i: int, p: Pattern, translation: string)
    requires 0 <= i < |d|
    ensures Scan(d[..i + 1], p, translation) == Scan(d[..i], p, translation) + RewriteLeaf(d[i], p, translation)
  {
    FlatMapPrefix(d, i, l => RewriteLeaf(l, p, translation));
  }
}
