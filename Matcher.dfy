/** The matcher of content.js: `escapeRegExp`, the regular expression built for a word,
    and what `split`, `match` and `test` do with it on the text of one node. */
module Matcher {
  import opened Wrappers
  import opened Strings

  /** The characters `escapeRegExp` prefixes with a backslash: . * + ? ^ $ { } ( ) | [ ] \ */
  predicate IsMeta(c: char) {
    c == '.' || c == '*' || c == '+' || c == '?' || c == '^' || c == '$' || c == '{'
    || c == '}' || c == '(' || c == ')' || c == '|' || c == '[' || c == ']' || c == '\\'
  }

  function EscapeChar(c: char): string {
    if IsMeta(c) then ['\\', c] else [c]
  }

  /** `escapeRegExp(s)`. */
  function Escape(s: string): (r: string)
    ensures |r| >= |s|
  {
    if s == [] then [] else EscapeChar(s[0]) + Escape(s[1..])
  }

  /** The literal text a regular-expression source made of plain characters and escaped
      metacharacters stands for; `None` when the source holds an unescaped metacharacter
      or any other escape. */
  function Unescape(src: string): Option<string> {
    if src == [] then Some([])
    else if src[0] == '\\' then
      if |src| >= 2 && IsMeta(src[1]) then
        match Unescape(src[2..])
        case Some(rest) => Some([src[1]] + rest)
        case None => None
      else None
    else if IsMeta(src[0]) then None
    else
      match Unescape(src[1..])
      case Some(rest) => Some([src[0]] + rest)
      case None => None
  }

  /** The escaped word, read back as a regular expression, stands for the word itself. */
  lemma {:induction false} EscapeRoundTrip(s: string)
    ensures Unescape(Escape(s)) == Some(s)
  {
    if s != [] {
      EscapeRoundTrip(s[1..]);
      var e := Escape(s);
      if IsMeta(s[0]) {
        assert e[0] == '\\' && e[1] == s[0] && e[2..] == Escape(s[1..]);
      } else {
        assert e[0] == s[0] && e[1..] == Escape(s[1..]);
      }
      assert [s[0]] + s[1..] == s;
    }
  }

  /** Escaping changes a word exactly when it holds a metacharacter. */
  lemma {:induction false} EscapeUnchangedIff(s: string)
    ensures Escape(s) == s <==> forall i :: 0 <= i < |s| ==> !IsMeta(s[i])
  {
    if s != [] {
      EscapeUnchangedIff(s[1..]);
      if IsMeta(s[0]) {
        assert |Escape(s)| > |s|;
      } else {
        assert Escape(s) == [s[0]] + Escape(s[1..]);
        assert s == [s[0]] + s[1..];
        if Escape(s) == s {
          assert Escape(s[1..]) == s[1..];
        }
        assert (forall i :: 0 <= i < |s| ==> !IsMeta(s[i]))
          <==> (forall i :: 0 <= i < |s[1..]| ==> !IsMeta(s[1..][i]));
      }
    }
  }

  /** An escaped word never begins with the word-boundary assertion `\b`. */
  lemma EscapeNotBoundaryPrefix(s: string)
    requires |Escape(s)| >= 2
    ensures Escape(s)[..2] != "\\b"
  {
    var e := Escape(s);
    assert e == EscapeChar(s[0]) + Escape(s[1..]);
    if IsMeta(s[0]) {
      assert e[1] == s[0];
    } else {
      assert e[0] == s[0];
    }
  }

  /** A regular expression: its source text and its flags. */
  datatype Regex = Regex(source: string, flags: string)

  /** The expression content.js builds for a word: the escaped word alone with flag `g`
      for a Chinese source, and between two `\b` with flags `gi` otherwise. */
  function BuildRegex(word: string, chineseSource: bool): Regex {
    if chineseSource then Regex(Escape(word), "g")
    else Regex("\\b" + Escape(word) + "\\b", "gi")
  }

  /** What an expression of that shape matches: a literal word, compared with or without
      case, with or without a word boundary on both sides. */
  datatype Pattern = Pattern(word: string, ignoreCase: bool, wordBoundaries: bool)

  /** Reads an expression of the shape `BuildRegex` produces as the pattern it means. */
  function Compile(r: Regex): Option<Pattern> {
    var src := r.source;
    var bounded := |src| >= 4 && src[..2] == "\\b" && src[|src| - 2..] == "\\b";
    var body := if bounded then src[2..|src| - 2] else src;
    if r.flags != "g" && r.flags != "gi" then None
    else
      match Unescape(body)
      case None => None
      case Some(w) => Some(Pattern(w, r.flags == "gi", bounded))
  }

  /** The pattern used for `word`: case-sensitive and boundary-free for a Chinese source,
      case-insensitive between word boundaries for any other. */
  function PatternFor(word: string, chineseSource: bool): Pattern {
    Pattern(word, !chineseSource, !chineseSource)
  }

  /** The built expression matches the word literally, with exactly the case and boundary
      rules of its language. */
  lemma CompileBuildRegex(word: string, chineseSource: bool)
    ensures Compile(BuildRegex(word, chineseSource)) == Some(PatternFor(word, chineseSource))
  {
    var e := Escape(word);
    EscapeRoundTrip(word);
    if chineseSource {
      if |e| >= 4 { EscapeNotBoundaryPrefix(word); }
    } else {
      var src := "\\b" + e + "\\b";
      assert src[..2] == "\\b";
      assert src[|src| - 2..] == "\\b";
      assert src[2..|src| - 2] == e;
    }
  }

  /** A word character for `\b`: [A-Za-z0-9_]. */
  predicate IsWordChar(c: char) {
    'a' <= c <= 'z' || 'A' <= c <= 'Z' || '0' <= c <= '9' || c == '_'
  }

  /** Outside the text counts as a non-word character. */
  predicate WordCharAt(t: string, k: int) {
    0 <= k < |t| && IsWordChar(t[k])
  }

  /** `\b` holds at position k of t. */
  predicate IsBoundary(t: string, k: int) {
    WordCharAt(t, k - 1) != WordCharAt(t, k)
  }

  /** A matched substring equals the word (up to case when case is ignored). */
  predicate SameText(p: Pattern, s: string) {
    if p.ignoreCase then EqualsIgnoreCase(s, p.word) else s == p.word
  }

  /** The pattern matches t at position i. The empty word is taken to match nothing. */
  predicate MatchAt(p: Pattern, t: string, i: int) {
    && 0 <= i && |p.word| > 0 && i + |p.word| <= |t|
    && SameText(p, t[i..i + |p.word|])
    && (p.wordBoundaries ==> IsBoundary(t, i) && IsBoundary(t, i + |p.word|))
  }

  /** `regex.test(t)`: t holds a match somewhere. */
  predicate ContainsMatch(p: Pattern, t: string) {
    exists i :: 0 <= i < |t| && MatchAt(p, t, i)
  }

  /** The results of `t.split(regex)` and `t.match(regex) || []`. */
  datatype Pieces = Pieces(parts: seq<string>, matches: seq<string>)

  /** Leftmost, non-overlapping matching from position i; the current part began at start. */
  function SplitFrom(p: Pattern, t: string, start: nat, i: nat): (r: Pieces)
    requires start <= i <= |t|
    ensures |r.parts| == |r.matches| + 1
    decreases |t| - i
  {
    if i == |t| then Pieces([t[start..]], [])
    else if MatchAt(p, t, i) then
      var e := i + |p.word|;
      var rest := SplitFrom(p, t, e, e);
      Pieces([t[start..i]] + rest.parts, [t[i..e]] + rest.matches)
    else SplitFrom(p, t, start, i + 1)
  }

  function Split(p: Pattern, t: string): (r: Pieces)
    ensures |r.parts| == |r.matches| + 1
  {
    SplitFrom(p, t, 0, 0)
  }

  /** parts[0] + matches[0] + parts[1] + ... + parts[n]. */
  function Interleave(parts: seq<string>, matches: seq<string>): string
    requires |parts| == |matches| + 1
    decreases |matches|
  {
    if matches == [] then parts[0]
    else parts[0] + matches[0] + Interleave(parts[1..], matches[1..])
  }

  /** A part s cut out of t contains no match of p, and every match that any pattern of
      the same boundary mode finds in s it also finds in t. */
  ghost predicate NoNewMatches(p: Pattern, t: string, s: string) {
    && !ContainsMatch(p, s)
    && forall q: Pattern :: (q.wordBoundaries ==> p.wordBoundaries) && ContainsMatch(q, s) ==> ContainsMatch(q, t)
  }

  /** A match inside t[start..end] is a match in t when the ends of the piece are word
      boundaries of t or the pattern does not look at boundaries. */
  lemma MatchInPiece(q: Pattern, t: string, start: nat, end: nat, j: int)
    requires start <= end <= |t|
    requires q.wordBoundaries ==> (start == 0 || IsBoundary(t, start)) && (end == |t| || IsBoundary(t, end))
    requires MatchAt(q, t[start..end], j)
    ensures MatchAt(q, t, start + j)
  {
    var n := |q.word|;
    SliceOfSlice(t, start, end, j, j + n);
    if q.wordBoundaries {
      BoundaryInPiece(t, start, end, j);
      BoundaryInPiece(t, start, end, j + n);
    }
  }

  /** A word boundary of the piece t[start..end] is one of t, given that the ends of the
      piece are boundaries of t. */
  lemma BoundaryInPiece(t: string, start: nat, end: nat, k: int)
    requires start <= end <= |t| && 0 <= k <= end - start
    requires (start == 0 || IsBoundary(t, start)) && (end == |t| || IsBoundary(t, end))
    requires IsBoundary(t[start..end], k)
    ensures IsBoundary(t, start + k)
  {
    var s := t[start..end];
    if 0 < k {
      assert WordCharAt(s, k - 1) == WordCharAt(t, start + k - 1);
    }
    if k < |s| {
      assert WordCharAt(s, k) == WordCharAt(t, start + k);
    }
  }

  /** The piece t[start..end] has the properties of `NoNewMatches`, given that no match of p
      begins in it and that its ends are boundaries wherever p checks boundaries. */
  lemma PieceHasNoNewMatches(p: Pattern, t: string, start: nat, end: nat)
    requires start <= end <= |t|
    requires forall j :: start <= j < end ==> !MatchAt(p, t, j)
    requires p.wordBoundaries ==> (start == 0 || IsBoundary(t, start)) && (end == |t| || IsBoundary(t, end))
    ensures NoNewMatches(p, t, t[start..end])
  {
    var s := t[start..end];
    if ContainsMatch(p, s) {
      var j :| 0 <= j < |s| && MatchAt(p, s, j);
      MatchInPiece(p, t, start, end, j);
      assert false;
    }
    forall q: Pattern | (q.wordBoundaries ==> p.wordBoundaries) && ContainsMatch(q, s)
      ensures ContainsMatch(q, t)
    {
      var j :| 0 <= j < |s| && MatchAt(q, s, j);
      MatchInPiece(q, t, start, end, j);
    }
  }

  /** What splitting t from `start` promises: the parts and matches read in order give
      t[start..], every match is the word, and no part adds a match. */
  ghost predicate SplitSound(p: Pattern, t: string, start: nat, r: Pieces)
    requires start <= |t|
  {
    && |r.parts| == |r.matches| + 1
    && Interleave(r.parts, r.matches) == t[start..]
    && (forall k :: 0 <= k < |r.matches| ==> SameText(p, r.matches[k]))
    && (forall k :: 0 <= k < |r.parts| ==> NoNewMatches(p, t, r.parts[k]))
  }

  lemma {:induction false} SplitFromFacts(p: Pattern, t: string, start: nat, i: nat)
    requires start <= i <= |t|
    requires forall j :: start <= j < i ==> !MatchAt(p, t, j)
    requires p.wordBoundaries ==> start == 0 || IsBoundary(t, start)
    ensures SplitSound(p, t, start, SplitFrom(p, t, start, i))
    decreases |t| - i
  {
    if i == |t| {
      PieceHasNoNewMatches(p, t, start, |t|);
      assert t[start..|t|] == t[start..];
    } else if MatchAt(p, t, i) {
      var e := i + |p.word|;
      SplitFromFacts(p, t, e, e);
      PieceHasNoNewMatches(p, t, start, i);
      SplitMatchStep(p, t, start, i);
    } else {
      SplitFromFacts(p, t, start, i + 1);
    }
  }

  /** One match step of `SplitFrom`: the facts for the rest carry over to the whole. */
  lemma SplitMatchStep(p: Pattern, t: string, start: nat, i: nat)
    requires start <= i < |t| && MatchAt(p, t, i)
    requires NoNewMatches(p, t, t[start..i])
    requires SplitSound(p, t, i + |p.word|, SplitFrom(p, t, i + |p.word|, i + |p.word|))
    ensures SplitSound(p, t, start, SplitFrom(p, t, start, i))
  {
    var e := i + |p.word|;
    var rest := SplitFrom(p, t, e, e);
    SplitMatchShape(p, t, start, i);
    SplitMatchText(t, start, i, e, rest);
    var r := SplitFrom(p, t, start, i);
    forall k | 0 <= k < |r.parts| ensures NoNewMatches(p, t, r.parts[k]) {
      if k > 0 { assert r.parts[k] == rest.parts[k - 1]; }
    }
    forall k | 0 <= k < |r.matches| ensures SameText(p, r.matches[k]) {
      if k > 0 { assert r.matches[k] == rest.matches[k - 1]; }
    }
  }

  lemma SplitMatchShape(p: Pattern, t: string, start: nat, i: nat)
    requires start <= i < |t| && MatchAt(p, t, i)
    ensures var e := i + |p.word|;
      var rest := SplitFrom(p, t, e, e);
      SplitFrom(p, t, start, i) == Pieces([t[start..i]] + rest.parts, [t[i..e]] + rest.matches)
  {
  }

  lemma SplitMatchText(t: string, start: nat, i: nat, e: nat, rest: Pieces)
    requires start <= i <= e <= |t|
    requires |rest.parts| == |rest.matches| + 1
    requires Interleave(rest.parts, rest.matches) == t[e..]
    ensures Interleave([t[start..i]] + rest.parts, [t[i..e]] + rest.matches) == t[start..]
  {
    var parts := [t[start..i]] + rest.parts;
    var matches := [t[i..e]] + rest.matches;
    assert parts[1..] == rest.parts && matches[1..] == rest.matches;
    assert t[start..] == t[start..i] + t[i..e] + t[e..];
  }

  /** Where part k begins in `Interleave(parts, matches)`. */
  function PartStart(parts: seq<string>, matches: seq<string>, k: nat): nat
    requires |parts| == |matches| + 1 && k <= |matches|
    decreases k
  {
    if k == 0 then 0 else |parts[0]| + |matches[0]| + PartStart(parts[1..], matches[1..], k - 1)
  }

  /** Where match k begins in `Interleave(parts, matches)`: right after part k. */
  function MatchStart(parts: seq<string>, matches: seq<string>, k: nat): nat
    requires |parts| == |matches| + 1 && k < |matches|
  {
    PartStart(parts, matches, k) + |parts[k]|
  }

  /** Where leftmost, non-overlapping matching from i finds its matches. */
  ghost function MatchPositions(p: Pattern, t: string, i: nat): seq<nat>
    requires i <= |t|
    decreases |t| - i
  {
    if i == |t| then []
    else if MatchAt(p, t, i) then [i] + MatchPositions(p, t, i + |p.word|)
    else MatchPositions(p, t, i + 1)
  }

  /** Every position found is a match at or after i, and each begins after the one before
      it has ended. */
  lemma {:induction false} PositionsAreMatches(p: Pattern, t: string, i: nat)
    requires i <= |t|
    ensures forall k :: 0 <= k < |MatchPositions(p, t, i)| ==> i <= MatchPositions(p, t, i)[k]
    ensures forall k :: 0 <= k < |MatchPositions(p, t, i)| ==> MatchAt(p, t, MatchPositions(p, t, i)[k])
    ensures forall k :: 0 < k < |MatchPositions(p, t, i)| ==> MatchPositions(p, t, i)[k - 1] + |p.word| <= MatchPositions(p, t, i)[k]
    decreases |t| - i
  {
    if i < |t| {
      var pos := MatchPositions(p, t, i);
      if MatchAt(p, t, i) {
        var e := i + |p.word|;
        var rest := MatchPositions(p, t, e);
        PositionsAreMatches(p, t, e);
        assert pos == [i] + rest;
        forall k | 0 <= k < |pos| ensures i <= pos[k] && MatchAt(p, t, pos[k]) {
          if k > 0 {
            assert pos[k] == rest[k - 1];
          }
        }
        forall k | 0 < k < |pos| ensures pos[k - 1] + |p.word| <= pos[k] {
          assert pos[k] == rest[k - 1];
          if k > 1 {
            assert pos[k - 1] == rest[k - 2];
          }
        }
      } else {
        assert pos == MatchPositions(p, t, i + 1);
        PositionsAreMatches(p, t, i + 1);
      }
    }
  }

  /** Position j lies inside one of the spans of length n beginning at `pos`. */
  predicate Covered(pos: seq<nat>, j: int, n: nat) {
    exists k :: 0 <= k < |pos| && pos[k] <= j < pos[k] + n
  }

  /** No match is missed: every match at or after i begins at or inside a found one. */
  lemma {:induction false} PositionsComplete(p: Pattern, t: string, i: nat)
    requires i <= |t|
    ensures forall j :: i <= j < |t| && MatchAt(p, t, j) ==> Covered(MatchPositions(p, t, i), j, |p.word|)
    decreases |t| - i
  {
    if i < |t| {
      var pos := MatchPositions(p, t, i);
      if MatchAt(p, t, i) {
        var e := i + |p.word|;
        var rest := MatchPositions(p, t, e);
        PositionsComplete(p, t, e);
        assert pos == [i] + rest;
        forall j | i <= j < |t| && MatchAt(p, t, j) ensures Covered(pos, j, |p.word|) {
          if j < e {
            assert MatchPositions(p, t, i)[0] == i <= j;
          } else {
            assert Covered(rest, j, |p.word|);
            var k :| 0 <= k < |rest| && rest[k] <= j < rest[k] + |p.word|;
            assert MatchPositions(p, t, i)[k + 1] == rest[k];
          }
        }
      } else {
        assert pos == MatchPositions(p, t, i + 1);
        PositionsComplete(p, t, i + 1);
      }
    }
  }

  /** The matches of a split from `start` sit at the positions found: match k begins
      where the interleaving puts it, and is the text there. */
  lemma {:induction false} SplitAtPositions(p: Pattern, t: string, start: nat, i: nat)
    requires start <= i <= |t|
    ensures |MatchPositions(p, t, i)| == |SplitFrom(p, t, start, i).matches|
    ensures forall k :: 0 <= k < |MatchPositions(p, t, i)| ==>
      PlacedAt(t, MatchPositions(p, t, i)[k], start, SplitFrom(p, t, start, i), k, |p.word|)
    decreases |t| - i
  {
    if i < |t| {
      if MatchAt(p, t, i) {
        var e := i + |p.word|;
        SplitAtPositions(p, t, e, e);
        SplitMatchShape(p, t, start, i);
        assert MatchPositions(p, t, i) == [i] + MatchPositions(p, t, e);
        PositionsStep(p, t, start, i, SplitFrom(p, t, e, e), MatchPositions(p, t, e), SplitFrom(p, t, start, i), MatchPositions(p, t, i));
      } else {
        assert MatchPositions(p, t, i) == MatchPositions(p, t, i + 1);
        assert SplitFrom(p, t, start, i) == SplitFrom(p, t, start, i + 1);
        SplitAtPositions(p, t, start, i + 1);
      }
    }
  }

  /** Behind a leading part `a` and match `b`, match k of the rest is match k + 1 of the whole. */
  lemma OffsetOfLaterMatch(a: string, b: string, rest: Pieces, k: nat)
    requires |rest.parts| == |rest.matches| + 1 && k < |rest.matches|
    ensures var parts := [a] + rest.parts; var matches := [b] + rest.matches;
      && matches[k + 1] == rest.matches[k]
      && MatchStart(parts, matches, k + 1) == |a| + |b| + MatchStart(rest.parts, rest.matches, k)
  {
    var parts := [a] + rest.parts;
    var matches := [b] + rest.matches;
    assert parts[1..] == rest.parts && matches[1..] == rest.matches;
  }

  /** Match k of `r`, split from `start`, begins at `m` in t and is the text there. */
  predicate PlacedAt(t: string, m: nat, start: nat, r: Pieces, k: nat, n: nat) {
    && |r.parts| == |r.matches| + 1 && k < |r.matches|
    && m == start + MatchStart(r.parts, r.matches, k)
    && m + n <= |t| && r.matches[k] == t[m..m + n]
  }

  lemma PositionsStep(p: Pattern, t: string, start: nat, i: nat, rest: Pieces, rpos: seq<nat>, r: Pieces, pos: seq<nat>)
    requires start <= i && i + |p.word| <= |t|
    requires |rest.parts| == |rest.matches| + 1 && |rpos| == |rest.matches|
    requires forall k :: 0 <= k < |rpos| ==> PlacedAt(t, rpos[k], i + |p.word|, rest, k, |p.word|)
    requires r == Pieces([t[start..i]] + rest.parts, [t[i..i + |p.word|]] + rest.matches)
    requires pos == [i] + rpos
    ensures |pos| == |r.matches|
    ensures forall k :: 0 <= k < |pos| ==> PlacedAt(t, pos[k], start, r, k, |p.word|)
  {
    forall k | 0 <= k < |pos| ensures PlacedAt(t, pos[k], start, r, k, |p.word|) {
      if k == 0 {
        assert MatchStart(r.parts, r.matches, 0) == i - start;
      } else {
        OffsetOfLaterMatch(t[start..i], t[i..i + |p.word|], rest, k - 1);
        assert pos[k] == rpos[k - 1];
      }
    }
  }

  /** `s` is the text of a match of p in t. */
  ghost predicate IsMatchOf(p: Pattern, t: string, s: string) {
    exists i :: MatchAt(p, t, i) && s == t[i..i + |p.word|]
  }

  /** Splitting a node's text: the parts and matches, read in order, are the text again;
      every match is the word (up to case where case is ignored); and no part holds a match
      of the word or of any other word of the same language that the whole text lacked. */
  lemma SplitFacts(p: Pattern, t: string)
    ensures var r := Split(p, t);
      && Interleave(r.parts, r.matches) == t
      && (forall k :: 0 <= k < |r.matches| ==> SameText(p, r.matches[k]))
      && (forall k :: 0 <= k < |r.parts| ==> NoNewMatches(p, t, r.parts[k]))
  {
    SplitFromFacts(p, t, 0, 0);
    assert t[0..] == t;
  }

  /** Where a split's matches are: match k is a match of the word in the text, at the place
      the parts and matches before it end; the matches do not overlap; and every match of
      the word in the text begins at or inside a reported one (matching is leftmost). */
  lemma SplitPositions(p: Pattern, t: string)
    ensures |MatchPositions(p, t, 0)| == |Split(p, t).matches|
    ensures forall k :: 0 <= k < |MatchPositions(p, t, 0)| ==>
      && MatchAt(p, t, MatchPositions(p, t, 0)[k])
      && PlacedAt(t, MatchPositions(p, t, 0)[k], 0, Split(p, t), k, |p.word|)
    ensures forall k :: 0 < k < |MatchPositions(p, t, 0)| ==> MatchPositions(p, t, 0)[k - 1] + |p.word| <= MatchPositions(p, t, 0)[k]
    ensures forall j :: 0 <= j < |t| && MatchAt(p, t, j) ==> Covered(MatchPositions(p, t, 0), j, |p.word|)
  {
    SplitAtPositions(p, t, 0, 0);
    PositionsAreMatches(p, t, 0);
    PositionsComplete(p, t, 0);
  }

  /** Every match a split reports is the text of a match of the word in the text. */
  lemma SplitMatchesAreMatches(p: Pattern, t: string)
    ensures forall s :: s in Split(p, t).matches ==> IsMatchOf(p, t, s)
  {
    var r := Split(p, t);
    var pos := MatchPositions(p, t, 0);
    SplitAtPositions(p, t, 0, 0);
    PositionsAreMatches(p, t, 0);
    forall s | s in r.matches ensures IsMatchOf(p, t, s) {
      var k :| 0 <= k < |r.matches| && r.matches[k] == s;
      assert MatchAt(p, t, pos[k]) && PlacedAt(t, pos[k], 0, r, k, |p.word|);
    }
  }

  /** "cat" is matched as a whole word ... */
  lemma CatMatchedAsWord()
    ensures MatchAt(PatternFor("cat", false), "the cat sat", 4)
  {
    var t := "the cat sat";
    assert t == "the " + "cat" + " sat";
    assert t[4..7] == "cat";
    assert !IsWordChar(t[3]) && !IsWordChar(t[7]);
  }

  /** ... but not at the start of "category", where no word boundary follows it, while a
      Chinese source, which has no boundaries, matches it there. */
  lemma CatNotMatchedInsideCategory()
    ensures !MatchAt(PatternFor("cat", false), "category", 0)
    ensures MatchAt(PatternFor("cat", true), "category", 0)
  {
    var t := "category";
    assert t[0..3] == "cat";
    assert IsWordChar(t[2]) && IsWordChar(t[3]);
  }

  /** Case is ignored outside a Chinese source: "Cat" is matched for "cat". */
  lemma CatMatchedIgnoringCase()
    ensures MatchAt(PatternFor("cat", false), "The Cat sat", 4)
    ensures !MatchAt(PatternFor("cat", true), "The Cat sat", 4)
  {
    var u := "The Cat sat";
    assert u == "The " + "Cat" + " sat";
    assert u[4..7] == "Cat";
    assert Lower(u[4..7]) == "cat";
    assert !IsWordChar(u[3]) && !IsWordChar(u[7]);
  }

  /** With a Chinese source every literal occurrence matches, boundaries or not. */
  lemma ChineseMatchesEveryOccurrence()
    ensures MatchAt(PatternFor("猫", true), "我爱猫猫", 2)
    ensures MatchAt(PatternFor("猫", true), "我爱猫猫", 3)
  {
    var t := "我爱猫猫";
    assert t[2..3] == "猫";
    assert t[3..4] == "猫";
  }
}
