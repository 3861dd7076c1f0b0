/** The popup's bookkeeping: merging updates into a stored word list, deleting and editing
    a word, CSV import and export, the search filter and sort order of the list view, the
    excluded-sites text, and the settings form. */
module Popup {
  import opened Wrappers
  import opened Strings
  import opened Store

  // ---------------------------------------------------------------- word lists

  /** `wordLists[key] || {}`. */
  function ListOr(lists: WordLists, key: string): WordList {
    if key in lists then lists[key] else map[]
  }

  /** `updateStoredWordList`: the pair's list, created empty if absent, takes every key of
      `updates`; all its other words and all other pairs stay as they were. */
  function Merge(lists: WordLists, key: string, updates: WordList): (r: WordLists)
    ensures r.Keys == lists.Keys + {key}
    ensures forall k :: k in lists && k != key ==> r[k] == lists[k]
    ensures forall w :: w in r[key] <==> w in ListOr(lists, key) || w in updates
    ensures forall w :: w in updates ==> r[key][w] == updates[w]
    ensures forall w :: w in ListOr(lists, key) && w !in updates ==> r[key][w] == ListOr(lists, key)[w]
  {
    lists[key := ListOr(lists, key) + updates]
  }

  /** `updateStoredWordList(langPairKey, updates)`: reads the stored lists (none reads as
      `{}`), copies the updates in one key at a time as `Object.assign` does, writes the lists
      back and returns the pair's merged list. */
  method UpdateStoredWordList(store: LocalStore, key: string, updates: WordList) returns (merged: WordList)
    modifies store
    ensures store.wordLists == Some(Merge(old(store.wordLists).GetOr(map[]), key, updates))
    ensures merged == store.wordLists.value[key]
    ensures store.settings == old(store.settings) && store.isEnabled == old(store.isEnabled)
  {
    var lists := store.wordLists.GetOr(map[]);
    var list := ListOr(lists, key);
    var pending := updates.Keys;
    while pending != {}
      invariant pending <= updates.Keys
      invariant list == ListOr(lists, key) + map w | w in updates.Keys - pending :: updates[w]
      decreases pending
    {
      var w :| w in pending;
      ghost var done := updates.Keys - pending;
      assert (map u | u in done + {w} :: updates[u]) == (map u | u in done :: updates[u])[w := updates[w]];
      list := list[w := updates[w]];
      pending := pending - {w};
      assert updates.Keys - pending == done + {w};
    }
    assert (map w | w in updates.Keys - {} :: updates[w]) == updates;
    lists := lists[key := list];
    store.wordLists := Some(lists);
    merged := list;
  }

  /** The delete handler's `delete wordLists[key][word]`: with no stored lists, or no list
      for the pair, the handler stops with a TypeError before storing anything. */
  function DeleteWord(lists: Option<WordLists>, key: string, word: string): (r: Option<WordLists>)
    ensures r.Some? <==> lists.Some? && key in lists.value
    ensures r.Some? ==> && r.value.Keys == lists.value.Keys
                        && (forall k :: k in lists.value && k != key ==> r.value[k] == lists.value[k])
                        && word !in r.value[key]
                        && (forall w :: w in lists.value[key] && w != word ==> w in r.value[key] && r.value[key][w] == lists.value[key][w])
                        && (forall w :: w in r.value[key] ==> w in lists.value[key])
  {
    if lists.Some? && key in lists.value then
      Some(lists.value[key := lists.value[key] - {word}])
    else None
  }

  /** The save handler of an edited translation: a blank (after trimming) input does
      nothing; otherwise the word maps to the trimmed input in that pair only. */
  function EditTranslation(lists: WordLists, key: string, word: string, input: string): (r: Option<WordLists>)
    ensures r.Some? <==> Trim(input) != []
    ensures r.Some? ==> && r.value.Keys == lists.Keys + {key}
                        && r.value[key].Keys == ListOr(lists, key).Keys + {word}
                        && r.value[key][word] == Trim(input)
                        && (forall k :: k in lists && k != key ==> k in r.value && r.value[k] == lists[k])
                        && (forall w :: w in ListOr(lists, key) && w != word ==> w in r.value[key] && r.value[key][w] == ListOr(lists, key)[w])
  {
    var t := Trim(input);
    if t == [] then None else Some(Merge(lists, key, map[word := t]))
  }

  // ---------------------------------------------------------------- line-oriented text

  /** Trims every line and drops the blank ones, keeping the order. */
  function TrimmedNonBlank(lines: seq<string>): (r: seq<string>)
    ensures |r| <= |lines|
    ensures forall i :: 0 <= i < |r| ==> r[i] != [] && Trim(r[i]) == r[i]
  {
    if lines == [] then []
    else
      var t := Trim(lines[0]);
      TrimOfTrimmed(t);
      var rest := TrimmedNonBlank(lines[1..]);
      if t == [] then rest else [t] + rest
  }

  /** `idx` picks `r` out of `src` in order: `r[k]` is `src[idx[k]]`, the indices increase,
      every picked element is flagged as kept, and every element flagged as kept is picked. */
  ghost predicate PicksInOrder<T>(src: seq<T>, kept: seq<bool>, r: seq<T>, idx: seq<nat>) {
    && |kept| == |src|
    && |idx| == |r|
    && (forall k :: 0 <= k < |idx| ==> idx[k] < |src| && r[k] == src[idx[k]] && kept[idx[k]])
    && (forall k, j :: 0 <= k < j < |idx| ==> idx[k] < idx[j])
    && (forall i :: 0 <= i < |src| && kept[i] ==> exists k :: 0 <= k < |idx| && idx[k] == i)
  }

  /** Every index moved up by one. */
  function Shift(idx: seq<nat>): (r: seq<nat>)
    ensures |r| == |idx| && forall k :: 0 <= k < |idx| ==> r[k] == idx[k] + 1
  {
    seq(|idx|, k requires 0 <= k < |idx| => idx[k] + 1)
  }

  /** Indices into the tail, moved up by one, name the same elements of the whole sequence. */
  lemma ShiftPicksSame<T>(src: seq<T>, kept: seq<bool>, r: seq<T>, idx: seq<nat>)
    requires src != [] && |kept| == |src| && |idx| == |r|
    requires forall k :: 0 <= k < |idx| ==> idx[k] < |src[1..]| && r[k] == src[1..][idx[k]] && kept[1..][idx[k]]
    ensures forall k :: 0 <= k < |idx| ==> 1 <= Shift(idx)[k] < |src| && r[k] == src[Shift(idx)[k]] && kept[Shift(idx)[k]]
  {
    forall k | 0 <= k < |idx| ensures r[k] == src[Shift(idx)[k]] && kept[Shift(idx)[k]] {
      assert src[1..][idx[k]] == src[idx[k] + 1] && kept[1..][idx[k]] == kept[idx[k] + 1];
    }
  }

  /** A kept element of the tail that is picked stays picked after the shift. */
  lemma ShiftPicksAll(kept: seq<bool>, idx: seq<nat>)
    requires kept != []
    requires forall i :: 0 <= i < |kept[1..]| && kept[1..][i] ==> exists k :: 0 <= k < |idx| && idx[k] == i
    ensures forall i :: 1 <= i < |kept| && kept[i] ==> exists k :: 0 <= k < |idx| && Shift(idx)[k] == i
  {
    forall i | 1 <= i < |kept| && kept[i] ensures exists k :: 0 <= k < |idx| && Shift(idx)[k] == i {
      assert kept[1..][i - 1] == kept[i];
      var k :| 0 <= k < |idx| && idx[k] == i - 1;
      assert Shift(idx)[k] == i;
    }
  }

  /** Picking from the tail in order extends to the whole sequence: the head is picked
      first when it is kept. */
  lemma PickHead<T>(src: seq<T>, kept: seq<bool>, r: seq<T>, idx: seq<nat>) returns (idx': seq<nat>)
    requires src != [] && |kept| == |src| && PicksInOrder(src[1..], kept[1..], r, idx)
    ensures PicksInOrder(src, kept, if kept[0] then [src[0]] + r else r, idx')
  {
    ShiftPicksSame(src, kept, r, idx);
    ShiftPicksAll(kept, idx);
    if kept[0] {
      idx' := PickKeptHead(src, kept, r, Shift(idx));
    } else {
      idx' := Shift(idx);
      PickSkippedHead(src, kept, r, idx');
    }
  }

  /** A head that is not kept is not picked: the shifted picks of the tail are all. */
  lemma PickSkippedHead<T>(src: seq<T>, kept: seq<bool>, r: seq<T>, shifted: seq<nat>)
    requires src != [] && |kept| == |src| && !kept[0] && |shifted| == |r|
    requires forall k :: 0 <= k < |shifted| ==> 1 <= shifted[k] < |src| && r[k] == src[shifted[k]] && kept[shifted[k]]
    requires forall k, j :: 0 <= k < j < |shifted| ==> shifted[k] < shifted[j]
    requires forall i :: 1 <= i < |src| && kept[i] ==> exists k :: 0 <= k < |shifted| && shifted[k] == i
    ensures PicksInOrder(src, kept, r, shifted)
  {
    forall i | 0 <= i < |src| && kept[i] ensures exists k :: 0 <= k < |shifted| && shifted[k] == i {
      assert i != 0;
    }
  }

  /** The kept head goes first, before the shifted picks of the tail. */
  lemma PickKeptHead<T>(src: seq<T>, kept: seq<bool>, r: seq<T>, shifted: seq<nat>) returns (idx': seq<nat>)
    requires src != [] && |kept| == |src| && kept[0] && |shifted| == |r|
    requires forall k :: 0 <= k < |shifted| ==> 1 <= shifted[k] < |src| && r[k] == src[shifted[k]] && kept[shifted[k]]
    requires forall k, j :: 0 <= k < j < |shifted| ==> shifted[k] < shifted[j]
    requires forall i :: 1 <= i < |src| && kept[i] ==> exists k :: 0 <= k < |shifted| && shifted[k] == i
    ensures PicksInOrder(src, kept, [src[0]] + r, idx')
  {
    idx' := [0] + shifted;
    var r' := [src[0]] + r;
    forall k | 0 < k < |idx'| ensures idx'[k] == shifted[k - 1] && r'[k] == r[k - 1] {}
    forall i | 0 <= i < |src| && kept[i] ensures exists k :: 0 <= k < |idx'| && idx'[k] == i {
      if i == 0 {
        assert idx'[0] == 0;
      } else {
        var k :| 0 <= k < |shifted| && shifted[k] == i;
        assert idx'[k + 1] == i;
      }
    }
  }

  /** Which lines are not blank once trimmed. */
  function NonBlankFlags(lines: seq<string>): (r: seq<bool>)
    ensures |r| == |lines| && forall i :: 0 <= i < |lines| ==> r[i] == (Trim(lines[i]) != [])
  {
    seq(|lines|, i requires 0 <= i < |lines| => Trim(lines[i]) != [])
  }

  /** The trimmed form of each line. */
  function TrimEach(lines: seq<string>): (r: seq<string>)
    ensures |r| == |lines| && forall i :: 0 <= i < |lines| ==> r[i] == Trim(lines[i])
  {
    seq(|lines|, i requires 0 <= i < |lines| => Trim(lines[i]))
  }

  /** `TrimmedNonBlank` keeps exactly the trimmed lines that are not blank, in their order. */
  lemma TrimmedNonBlankInOrder(lines: seq<string>)
    ensures exists idx :: PicksInOrder(TrimEach(lines), NonBlankFlags(lines), TrimmedNonBlank(lines), idx)
  {
    var idx := TrimmedNonBlankPicks(lines);
  }

  lemma {:induction false} TrimmedNonBlankPicks(lines: seq<string>) returns (idx: seq<nat>)
    ensures PicksInOrder(TrimEach(lines), NonBlankFlags(lines), TrimmedNonBlank(lines), idx)
  {
    if lines == [] {
      idx := [];
    } else {
      var tail := TrimmedNonBlankPicks(lines[1..]);
      assert TrimEach(lines)[1..] == TrimEach(lines[1..]);
      assert NonBlankFlags(lines)[1..] == NonBlankFlags(lines[1..]);
      idx := PickHead(TrimEach(lines), NonBlankFlags(lines), TrimmedNonBlank(lines[1..]), tail);
    }
  }

  /** No line with text is lost: its trimmed form is among the kept lines. */
  lemma {:induction false} TrimmedNonBlankKeeps(lines: seq<string>, i: nat)
    requires i < |lines| && Trim(lines[i]) != []
    ensures Trim(lines[i]) in TrimmedNonBlank(lines)
  {
    var rest := TrimmedNonBlank(lines[1..]);
    if i > 0 {
      assert lines[1..][i - 1] == lines[i];
      TrimmedNonBlankKeeps(lines[1..], i - 1);
      assert Trim(lines[i]) in rest;
    } else {
      assert TrimmedNonBlank(lines) == [Trim(lines[0])] + rest;
    }
  }

  function NonBlankLines(text: string): seq<string> {
    TrimmedNonBlank(SplitOn(text, '\n'))
  }

  lemma {:induction false} TrimmedNonBlankOfTrimmed(lines: seq<string>)
    requires forall i :: 0 <= i < |lines| ==> lines[i] != [] && Trim(lines[i]) == lines[i]
    ensures TrimmedNonBlank(lines) == lines
  {
    if lines != [] {
      TrimmedNonBlankOfTrimmed(lines[1..]);
    }
  }

  /** The settings form shows the stored sites joined by newlines, and saving reads the same
      list back, as long as each site is non-empty, trimmed and on one line. */
  lemma ExcludedSitesRoundTrip(sites: seq<string>)
    requires forall i :: 0 <= i < |sites| ==> sites[i] != [] && Trim(sites[i]) == sites[i] && '\n' !in sites[i]
    ensures NonBlankLines(JoinWith(sites, '\n')) == sites
  {
    if sites == [] {
      assert SplitOn([], '\n') == [[]];
    } else {
      SplitJoin(sites, '\n');
      TrimmedNonBlankOfTrimmed(sites);
    }
  }

  // ---------------------------------------------------------------- CSV import

  const InvalidCsv := "Invalid CSV format. Each line must have two columns separated by a comma (default language, target language)."

  /** One import line: its first two comma-separated fields, trimmed; both must be non-empty.
      The word is lowercased, the translation kept as written; further fields are ignored. */
  function ParseLine(line: string): (r: Option<Entry>)
    ensures var fields := SplitOn(line, ',');
      r.Some? <==> Trim(fields[0]) != [] && |fields| >= 2 && Trim(fields[1]) != []
    ensures r.Some? ==> r.value == (Lower(Trim(SplitOn(line, ',')[0])), Trim(SplitOn(line, ',')[1]))
  {
    var fields := SplitOn(line, ',');
    var word := Trim(fields[0]);
    var translation := if |fields| >= 2 then Trim(fields[1]) else [];
    if word == [] || translation == [] then None else Some((Lower(word), translation))
  }

  /** `lines.map(parse)`, where a line that does not parse throws: every line must parse,
      or the whole import fails. */
  function ParseLines(lines: seq<string>): Option<seq<Entry>> {
    if forall i :: 0 <= i < |lines| ==> ParseLine(lines[i]).Some? then
      Some(seq(|lines|, i requires 0 <= i < |lines| => ParseLine(lines[i]).value))
    else None
  }

  /** `Object.fromEntries`: a later entry for a word replaces an earlier one. */
  function FromEntries(entries: seq<Entry>): (m: WordList)
    ensures forall w :: w in m <==> exists k :: 0 <= k < |entries| && entries[k].0 == w
    decreases |entries|
  {
    if entries == [] then map[]
    else
      var n := |entries| - 1;
      var m := FromEntries(entries[..n]);
      assert forall k :: 0 <= k < n ==> entries[..n][k] == entries[k];
      m[entries[n].0 := entries[n].1]
  }

  /** For duplicate words the last entry wins. */
  lemma {:induction false} FromEntriesLastWins(entries: seq<Entry>, k: int)
    requires 0 <= k < |entries|
    requires forall j :: k < j < |entries| ==> entries[j].0 != entries[k].0
    ensures FromEntries(entries)[entries[k].0] == entries[k].1
    decreases |entries|
  {
    var n := |entries| - 1;
    if k < n {
      FromEntriesLastWins(entries[..n], k);
    }
  }

  /** The import handler up to storing: the non-blank lines are parsed, then turned into
      the updates object. */
  function ImportCsv(text: string): (r: Result<WordList, string>)
    ensures r.Err? ==> r.error == InvalidCsv
    ensures r.Err? <==> exists i :: 0 <= i < |NonBlankLines(text)| && ParseLine(NonBlankLines(text)[i]).None?
  {
    match ParseLines(NonBlankLines(text))
    case None => Err(InvalidCsv)
    case Some(entries) => Ok(FromEntries(entries))
  }

  // ---------------------------------------------------------------- CSV export

  /** `${word},${translation}` for each entry: a row splits at its comma back into the word
      and the translation when neither holds a comma. */
  function Rows(entries: seq<Entry>): (r: seq<string>)
    ensures |r| == |entries|
    ensures forall i :: 0 <= i < |entries| && ',' !in entries[i].0 && ',' !in entries[i].1 ==>
      SplitOn(r[i], ',') == [entries[i].0, entries[i].1]
  {
    var r := seq(|entries|, i requires 0 <= i < |entries| => entries[i].0 + "," + entries[i].1);
    assert forall i :: 0 <= i < |entries| && ',' !in entries[i].0 && ',' !in entries[i].1 ==>
      SplitOn(r[i], ',') == [entries[i].0, entries[i].1] by {
      forall i | 0 <= i < |entries| && ',' !in entries[i].0 && ',' !in entries[i].1
        ensures SplitOn(r[i], ',') == [entries[i].0, entries[i].1]
      {
        RowFields(entries[i]);
      }
    }
    r
  }

  lemma RowFields(e: Entry)
    requires ',' !in e.0 && ',' !in e.1
    ensures SplitOn(e.0 + "," + e.1, ',') == [e.0, e.1]
  {
    SplitOnFirst(e.0, e.1, ',');
    SplitOnNoSep(e.1, ',');
    assert e.0 + "," + e.1 == e.0 + [','] + e.1;
  }

  /** The exported file: the pair key on the first line, then one line per entry. */
  function ExportCsv(key: string, entries: seq<Entry>): string {
    key + "\n" + JoinWith(Rows(entries), '\n')
  }

  /** The entries enumerate the list: each word once, each with its translation, and every
      word of the list present. */
  predicate EnumeratesList(entries: seq<Entry>, list: WordList) {
    && (forall i, j :: 0 <= i < j < |entries| ==> entries[i].0 != entries[j].0)
    && (forall i :: 0 <= i < |entries| ==> entries[i].0 in list && list[entries[i].0] == entries[i].1)
    && (forall w :: w in list ==> exists i :: 0 <= i < |entries| && entries[i].0 == w)
  }

  /** An entry that survives a trip through a CSV line: both fields non-empty, trimmed and
      free of commas and newlines, and the word already lowercase. */
  predicate CsvSafe(e: Entry) {
    && e.0 != [] && e.1 != []
    && Trim(e.0) == e.0 && Trim(e.1) == e.1 && Lower(e.0) == e.0
    && ',' !in e.0 && ',' !in e.1 && '\n' !in e.0 && '\n' !in e.1
  }

  lemma FromEntriesOfEnumeration(entries: seq<Entry>, list: WordList)
    requires EnumeratesList(entries, list)
    ensures FromEntries(entries) == list
  {
    var m := FromEntries(entries);
    forall w | w in m ensures m[w] == list[w] {
      var k :| 0 <= k < |entries| && entries[k].0 == w;
      FromEntriesLastWins(entries, k);
    }
  }

  lemma ParseRow(e: Entry)
    requires CsvSafe(e)
    ensures ParseLine(e.0 + "," + e.1) == Some(e)
  {
    RowFields(e);
  }

  lemma RowIsTrimmed(e: Entry)
    requires CsvSafe(e)
    ensures Trim(e.0 + "," + e.1) == e.0 + "," + e.1
  {
    var row := e.0 + "," + e.1;
    assert row[0] == e.0[0] && row[|row| - 1] == e.1[|e.1| - 1];
    TrimOfTrimmed(row);
  }

  lemma ParseLinesAll(lines: seq<string>, entries: seq<Entry>)
    requires |lines| == |entries|
    requires forall i :: 0 <= i < |lines| ==> ParseLine(lines[i]) == Some(entries[i])
    ensures ParseLines(lines) == Some(entries)
  {
    assert forall i :: 0 <= i < |lines| ==> ParseLine(lines[i]).Some?;
    var parsed := seq(|lines|, i requires 0 <= i < |lines| => ParseLine(lines[i]).value);
    assert ParseLines(lines) == Some(parsed);
    assert forall i :: 0 <= i < |lines| ==> parsed[i] == entries[i];
    assert parsed == entries;
  }

  lemma RowsAreLines(entries: seq<Entry>)
    requires forall i :: 0 <= i < |entries| ==> CsvSafe(entries[i])
    ensures NonBlankLines(JoinWith(Rows(entries), '\n')) == Rows(entries)
  {
    var rows := Rows(entries);
    forall i | 0 <= i < |rows| ensures rows[i] != [] && Trim(rows[i]) == rows[i] && '\n' !in rows[i] {
      RowIsTrimmed(entries[i]);
    }
    ExcludedSitesRoundTrip(rows);
  }

  /** Importing the exported lines (without the header line) gives back the list, when
      every entry survives the trip through a CSV line. */
  lemma CsvRoundTrip(entries: seq<Entry>, list: WordList)
    requires EnumeratesList(entries, list)
    requires forall i :: 0 <= i < |entries| ==> CsvSafe(entries[i])
    ensures ImportCsv(JoinWith(Rows(entries), '\n')) == Ok(list)
  {
    var rows := Rows(entries);
    forall i | 0 <= i < |rows| ensures ParseLine(rows[i]) == Some(entries[i]) {
      ParseRow(entries[i]);
    }
    RowsAreLines(entries);
    ParseLinesAll(rows, entries);
    FromEntriesOfEnumeration(entries, list);
  }

  /** The first non-blank line of `key + "\n" + rest` is the trimmed key, when the key is
      not blank. */
  lemma FirstLine(key: string, rest: string)
    requires Trim(key) != [] && '\n' !in key
    ensures NonBlankLines(key + "\n" + rest) == [Trim(key)] + NonBlankLines(rest)
  {
    SplitOnFirst(key, rest, '\n');
    assert key + "\n" + rest == key + ['\n'] + rest;
    assert ([key] + SplitOn(rest, '\n'))[1..] == SplitOn(rest, '\n');
  }

  /** A line without a comma has no second field and is refused. */
  lemma LineWithoutCommaRefused(line: string)
    requires ',' !in line
    ensures ParseLine(line).None?
  {
    SplitOnNoSep(line, ',');
  }

  /** The exported file as a whole is refused by the importer: its first line, the pair key,
      has no comma. */
  lemma ExportIsNotImportable(key: string, entries: seq<Entry>)
    requires Trim(key) != [] && ',' !in key && '\n' !in key
    ensures ImportCsv(ExportCsv(key, entries)).Err?
  {
    FirstLine(key, JoinWith(Rows(entries), '\n'));
    TrimKeepsAbsent(key, ',');
    LineWithoutCommaRefused(Trim(key));
    assert ParseLine(NonBlankLines(ExportCsv(key, entries))[0]).None?;
  }

  lemma TrimKeepsAbsent(s: string, c: char)
    requires c !in s
    ensures c !in Trim(s)
  {
    var k := Trim(s);
    if k != [] {
      assert forall i :: 0 <= i < |k| ==> k[i] == s[LeadingSpace(s) + i];
    }
  }

  // ---------------------------------------------------------------- list view

  /** The search: the word or the translation, lowercased, contains the lowercased term. */
  predicate MatchesSearch(e: Entry, term: string) {
    Contains(Lower(e.0), Lower(term)) || Contains(Lower(e.1), Lower(term))
  }

  /** The entries the search keeps, each as often as the list holds it. */
  function FilterEntries(entries: seq<Entry>, term: string): (r: seq<Entry>)
    ensures |r| <= |entries|
    ensures forall e :: e in r <==> e in entries && MatchesSearch(e, term)
    ensures forall e :: multiset(r)[e] == if MatchesSearch(e, term) then multiset(entries)[e] else 0
  {
    if entries == [] then []
    else
      assert entries == [entries[0]] + entries[1..];
      (if MatchesSearch(entries[0], term) then [entries[0]] else []) + FilterEntries(entries[1..], term)
  }

  /** Which entries match the search. */
  function MatchFlags(entries: seq<Entry>, term: string): (r: seq<bool>)
    ensures |r| == |entries| && forall i :: 0 <= i < |entries| ==> r[i] == MatchesSearch(entries[i], term)
  {
    seq(|entries|, i requires 0 <= i < |entries| => MatchesSearch(entries[i], term))
  }

  /** The search keeps the order of the list: it picks exactly the matching entries. */
  lemma FilterEntriesInOrder(entries: seq<Entry>, term: string)
    ensures exists idx :: PicksInOrder(entries, MatchFlags(entries, term), FilterEntries(entries, term), idx)
  {
    var idx := FilterEntriesPicks(entries, term);
  }

  lemma {:induction false} FilterEntriesPicks(entries: seq<Entry>, term: string) returns (idx: seq<nat>)
    ensures PicksInOrder(entries, MatchFlags(entries, term), FilterEntries(entries, term), idx)
  {
    if entries == [] {
      idx := [];
    } else {
      var tail := FilterEntriesPicks(entries[1..], term);
      assert MatchFlags(entries, term)[1..] == MatchFlags(entries[1..], term);
      idx := PickHead(entries, MatchFlags(entries, term), FilterEntries(entries[1..], term), tail);
    }
  }

  /** An empty search keeps every entry, in order. */
  lemma {:induction false} EmptySearchKeepsAll(entries: seq<Entry>)
    ensures FilterEntries(entries, "") == entries
  {
    if entries != [] {
      assert OccursAt(Lower(entries[0].0), Lower(""), 0);
      EmptySearchKeepsAll(entries[1..]);
    }
  }

  /** Character-code order on strings, standing in for `localeCompare`. */
  predicate LexLe(a: string, b: string)
    decreases |a|
  {
    a == [] || (b != [] && (a[0] < b[0] || (a[0] == b[0] && LexLe(a[1..], b[1..]))))
  }

  lemma {:induction false} LexLeTotal(a: string, b: string)
    ensures LexLe(a, b) || LexLe(b, a)
    decreases |a|
  {
    if a != [] && b != [] && a[0] == b[0] {
      LexLeTotal(a[1..], b[1..]);
    }
  }

  lemma {:induction false} LexLeTrans(a: string, b: string, c: string)
    requires LexLe(a, b) && LexLe(b, c)
    ensures LexLe(a, c)
    decreases |a|
  {
    if a != [] && a[0] == b[0] && b[0] == c[0] {
      LexLeTrans(a[1..], b[1..], c[1..]);
    }
  }

  /** The comparator of the list view: by word, ascending or descending. */
  predicate InOrder(x: Entry, y: Entry, ascending: bool) {
    if ascending then LexLe(x.0, y.0) else LexLe(y.0, x.0)
  }

  predicate SortedBy(entries: seq<Entry>, ascending: bool) {
    forall i, j :: 0 <= i < j < |entries| ==> InOrder(entries[i], entries[j], ascending)
  }

  function Insert(e: Entry, sorted: seq<Entry>, ascending: bool): seq<Entry> {
    if sorted == [] then [e]
    else if InOrder(e, sorted[0], ascending) then [e] + sorted
    else [sorted[0]] + Insert(e, sorted[1..], ascending)
  }

  /** The sort of the list view, as an insertion sort; ties keep their order. */
  function SortEntries(entries: seq<Entry>, ascending: bool): seq<Entry> {
    if entries == [] then [] else Insert(entries[0], SortEntries(entries[1..], ascending), ascending)
  }

  lemma {:induction false} InsertPermutes(e: Entry, sorted: seq<Entry>, ascending: bool)
    ensures multiset(Insert(e, sorted, ascending)) == multiset(sorted) + multiset{e}
  {
    if sorted != [] && !InOrder(e, sorted[0], ascending) {
      InsertPermutes(e, sorted[1..], ascending);
      assert sorted == [sorted[0]] + sorted[1..];
    }
  }

  lemma {:induction false} InsertSorted(e: Entry, sorted: seq<Entry>, ascending: bool)
    requires SortedBy(sorted, ascending)
    ensures SortedBy(Insert(e, sorted, ascending), ascending)
  {
    if sorted == [] {
    } else if !InOrder(e, sorted[0], ascending) {
      var rest := Insert(e, sorted[1..], ascending);
      InsertSorted(e, sorted[1..], ascending);
      InsertPermutes(e, sorted[1..], ascending);
      LexLeTotal(e.0, sorted[0].0);
      forall j | 0 <= j < |rest| ensures InOrder(sorted[0], rest[j], ascending) {
        assert rest[j] in multiset(sorted[1..]) + multiset{e};
        if rest[j] != e {
          var k :| 0 <= k < |sorted[1..]| && sorted[1..][k] == rest[j];
          assert sorted[k + 1] == rest[j];
        }
      }
    } else {
      PrependSorted(e, sorted, ascending);
    }
  }

  lemma PrependSorted(e: Entry, sorted: seq<Entry>, ascending: bool)
    requires SortedBy(sorted, ascending) && sorted != [] && InOrder(e, sorted[0], ascending)
    ensures SortedBy([e] + sorted, ascending)
  {
    forall i, j | 0 <= i < j < |sorted| + 1 ensures InOrder(([e] + sorted)[i], ([e] + sorted)[j], ascending) {
      if i == 0 && j > 1 {
        if ascending {
          LexLeTrans(e.0, sorted[0].0, sorted[j - 1].0);
        } else {
          LexLeTrans(sorted[j - 1].0, sorted[0].0, e.0);
        }
      }
    }
  }

  /** The displayed order is sorted by word in the chosen direction and is a permutation of
      what it sorts. */
  lemma {:induction false} SortEntriesFacts(entries: seq<Entry>, ascending: bool)
    ensures SortedBy(SortEntries(entries, ascending), ascending)
    ensures multiset(SortEntries(entries, ascending)) == multiset(entries)
  {
    if entries != [] {
      SortEntriesFacts(entries[1..], ascending);
      InsertSorted(entries[0], SortEntries(entries[1..], ascending), ascending);
      InsertPermutes(entries[0], SortEntries(entries[1..], ascending), ascending);
      assert entries == [entries[0]] + entries[1..];
    }
  }

  /** The sort button's state: ascending at first, flipped on each click. */
  class SortToggle {
    var isAscending: bool

    constructor ()
      ensures isAscending
    {
      isAscending := true;
    }

    method Click()
      modifies this
      ensures isAscending == !old(isAscending)
    {
      isAscending := !isAscending;
    }

    /** `filterAndDisplayWords(term)`: the matching entries, sorted by word. */
    function Displayed(entries: seq<Entry>, term: string): (r: seq<Entry>)
      reads this
      ensures SortedBy(r, isAscending)
      ensures forall e :: e in r <==> e in entries && MatchesSearch(e, term)
      ensures forall e :: multiset(r)[e] == if MatchesSearch(e, term) then multiset(entries)[e] else 0
    {
      var kept := FilterEntries(entries, term);
      SortEntriesFacts(kept, isAscending);
      assert forall e :: e in SortEntries(kept, isAscending) <==> e in multiset(kept);
      SortEntries(kept, isAscending)
    }
  }

  // ---------------------------------------------------------------- settings form

  /** The settings the form works with, every field present. */
  datatype Settings = Settings(defaultLanguage: string, targetLanguage: string, provider: string, excludedSites: seq<string>)

  const DefaultSettings := Settings("EN", "DE", "deepl", [])

  /** `{ ...defaultSettings, ...settings }`: each stored field overrides its default. */
  function EffectiveSettings(stored: Option<StoredSettings>): (r: Settings)
    ensures stored.None? ==> r == DefaultSettings
    ensures stored.Some? ==> && r.defaultLanguage == stored.value.defaultLanguage.GetOr(DefaultSettings.defaultLanguage)
                             && r.targetLanguage == stored.value.targetLanguage.GetOr(DefaultSettings.targetLanguage)
                             && r.provider == stored.value.provider.GetOr(DefaultSettings.provider)
                             && r.excludedSites == stored.value.excludedSites.GetOr(DefaultSettings.excludedSites)
  {
    var s := stored.GetOr(StoredSettings(None, None, None, None));
    Settings(
      s.defaultLanguage.GetOr(DefaultSettings.defaultLanguage),
      s.targetLanguage.GetOr(DefaultSettings.targetLanguage),
      s.provider.GetOr(DefaultSettings.provider),
      s.excludedSites.GetOr(DefaultSettings.excludedSites))
  }

  /** The only pair the form refuses as the same language twice. */
  predicate SameLanguage(defaultLanguage: string, targetLanguage: string) {
    defaultLanguage == "EN" && targetLanguage == "EN-US"
  }

  const SameLanguageError := "Default and target languages cannot be the same!"

  /** The save handler up to storing: refuses the same-language pair, otherwise builds the
      new settings with the excluded sites read from the textarea. */
  function SaveSettings(defaultLanguage: string, targetLanguage: string, provider: string, sitesText: string): (r: Result<StoredSettings, string>)
    ensures r.Err? <==> SameLanguage(defaultLanguage, targetLanguage)
    ensures r.Err? ==> r.error == SameLanguageError
  {
    if SameLanguage(defaultLanguage, targetLanguage) then Err(SameLanguageError)
    else Ok(StoredSettings(Some(defaultLanguage), Some(targetLanguage), Some(provider), Some(NonBlankLines(sitesText))))
  }

  /** Saved settings are read back by the form as saved, and select the chosen pair. */
  lemma SavedSettingsReadBack(defaultLanguage: string, targetLanguage: string, provider: string, sites: seq<string>)
    requires !SameLanguage(defaultLanguage, targetLanguage)
    requires forall i :: 0 <= i < |sites| ==> sites[i] != [] && Trim(sites[i]) == sites[i] && '\n' !in sites[i]
    ensures var r := SaveSettings(defaultLanguage, targetLanguage, provider, JoinWith(sites, '\n'));
      && r.Ok?
      && EffectiveSettings(Some(r.value)) == Settings(defaultLanguage, targetLanguage, provider, sites)
      && SettingsPairKey(r.value) == PairKey(defaultLanguage, targetLanguage)
  {
    ExcludedSitesRoundTrip(sites);
  }
}
