/** The string primitives the extension uses: `toLowerCase`, `trim`, `split` on one
    character, `join`, `includes`. */
module Strings {

  /** `toLowerCase` on one character; only ASCII letters are folded. */
  function LowerChar(c: char): char {
    if 'A' <= c <= 'Z' then (c as int + 32) as char else c
  }

  function Lower(s: string): (r: string)
    ensures |r| == |s|
    ensures forall i :: 0 <= i < |s| ==> r[i] == LowerChar(s[i])
  {
    seq(|s|, i requires 0 <= i < |s| => LowerChar(s[i]))
  }

  /** `toLowerCase` on ASCII: only the capitals A-Z change, each to its small letter. */
  lemma LowerOnlyCapitals(s: string)
    ensures forall i :: 0 <= i < |s| && !('A' <= s[i] <= 'Z') ==> Lower(s)[i] == s[i]
    ensures forall i :: 0 <= i < |s| && 'A' <= s[i] <= 'Z' ==>
      'a' <= Lower(s)[i] <= 'z' && Lower(s)[i] as int - 'a' as int == s[i] as int - 'A' as int
  {
  }

  /** The comparison `a.toLowerCase() === b.toLowerCase()`. */
  predicate EqualsIgnoreCase(a: string, b: string) {
    Lower(a) == Lower(b)
  }

  lemma LowerIdempotent(s: string)
    ensures Lower(Lower(s)) == Lower(s)
  {
  }

  /** A slice of a lowercase string is lowercase. */
  lemma LowerSliceOfLower(s: string, i: int, j: int)
    requires 0 <= i <= j <= |s| && Lower(s) == s
    ensures Lower(s[i..j]) == s[i..j]
  {
    forall k | 0 <= k < j - i ensures Lower(s[i..j])[k] == s[i..j][k] {
      assert s[i..j][k] == s[i + k];
      assert Lower(s)[i + k] == LowerChar(s[i + k]);
    }
  }

  /** The characters `String.prototype.trim` removes: white space and line terminators. */
  predicate IsSpace(c: char) {
    c == ' ' || c == '\t' || c == '\n' || c == '\r' || c == '\U{B}' || c == '\U{C}'
    || c == '\U{A0}' || c == '\U{1680}' || ('\U{2000}' <= c <= '\U{200A}')
    || c == '\U{2028}' || c == '\U{2029}' || c == '\U{202F}' || c == '\U{205F}'
    || c == '\U{3000}' || c == '\U{FEFF}'
  }

  /** The number of white-space characters at the start of `s`. */
  function LeadingSpace(s: string): (n: nat)
    ensures n <= |s|
    ensures forall k :: 0 <= k < n ==> IsSpace(s[k])
    ensures n < |s| ==> !IsSpace(s[n])
  {
    if s == [] || !IsSpace(s[0]) then 0 else 1 + LeadingSpace(s[1..])
  }

  /** The number of white-space characters at the end of `s`. */
  function TrailingSpace(s: string): (n: nat)
    ensures n <= |s|
    ensures forall k :: |s| - n <= k < |s| ==> IsSpace(s[k])
    ensures n < |s| ==> !IsSpace(s[|s| - 1 - n])
  {
    if s == [] || !IsSpace(s[|s| - 1]) then 0 else 1 + TrailingSpace(s[..|s| - 1])
  }

  /** `r` is `s` without the white space at either end: a slice of `s` that starts and ends
      with a non-space character, with only white space outside it. */
  predicate TrimmedSliceOf(r: string, s: string) {
    && LeadingSpace(s) + |r| <= |s|
    && r == s[LeadingSpace(s)..LeadingSpace(s) + |r|]
    && (r == [] || (!IsSpace(r[0]) && !IsSpace(r[|r| - 1])))
    && (forall k :: 0 <= k < |s| && !(LeadingSpace(s) <= k < LeadingSpace(s) + |r|) ==> IsSpace(s[k]))
  }

  /** `String.prototype.trim`. */
  function Trim(s: string): (r: string)
    ensures TrimmedSliceOf(r, s)
    ensures r == [] <==> forall k :: 0 <= k < |s| ==> IsSpace(s[k])
  {
    var a := LeadingSpace(s);
    if a == |s| then []
    else
      var b := TrailingSpace(s);
      s[a..|s| - b]
  }

  /** A string that starts and ends with a non-space character is its own trim. */
  lemma TrimOfTrimmed(s: string)
    requires s == [] || (!IsSpace(s[0]) && !IsSpace(s[|s| - 1]))
    ensures Trim(s) == s
  {
    if s != [] {
      assert LeadingSpace(s) == 0;
      assert TrailingSpace(s) == 0;
    }
  }

  /** `s.split(sep)` for a one-character separator: the pieces between separators. */
  function SplitOn(s: string, sep: char): (r: seq<string>)
    ensures |r| >= 1
    ensures forall i :: 0 <= i < |r| ==> sep !in r[i]
    ensures JoinWith(r, sep) == s
  {
    if s == [] then [[]]
    else
      var rest := SplitOn(s[1..], sep);
      if s[0] == sep then
        assert [[]] + rest == [[]] + rest[..1] + rest[1..];
        JoinTail([], rest, sep);
        [[]] + rest
      else
        var r := [[s[0]] + rest[0]] + rest[1..];
        JoinHead(rest, [s[0]] + rest[0], sep);
        r
  }

  /** `lines.join(sep)`. */
  function JoinWith(lines: seq<string>, sep: char): string {
    if lines == [] then []
    else if |lines| == 1 then lines[0]
    else lines[0] + [sep] + JoinWith(lines[1..], sep)
  }

  lemma JoinTail(x: string, rest: seq<string>, sep: char)
    requires |rest| >= 1
    ensures JoinWith([x] + rest, sep) == x + [sep] + JoinWith(rest, sep)
  {
    assert ([x] + rest)[1..] == rest;
  }

  lemma JoinHead(rest: seq<string>, first: string, sep: char)
    requires |rest| >= 1 && |first| >= 1
    requires first[1..] == rest[0]
    ensures JoinWith([first] + rest[1..], sep) == [first[0]] + JoinWith(rest, sep)
  {
    if |rest| == 1 {
      assert [first] + rest[1..] == [first];
    } else {
      assert ([first] + rest[1..])[1..] == rest[1..];
      assert JoinWith(rest, sep) == rest[0] + [sep] + JoinWith(rest[1..], sep);
    }
  }

  /** Splitting a string at a separator it does not contain gives the string itself. */
  lemma {:induction false} SplitOnNoSep(s: string, sep: char)
    requires sep !in s
    ensures SplitOn(s, sep) == [s]
  {
    if s != [] {
      SplitOnNoSep(s[1..], sep);
      assert [s[0]] + s[1..] == s;
    }
  }

  /** Splitting `x + sep + y`, where `x` has no separator, yields `x` and then the pieces of `y`. */
  lemma {:induction false} SplitOnFirst(x: string, y: string, sep: char)
    requires sep !in x
    ensures SplitOn(x + [sep] + y, sep) == [x] + SplitOn(y, sep)
  {
    var s := x + [sep] + y;
    if x == [] {
      assert s[1..] == y;
    } else {
      assert s[1..] == x[1..] + [sep] + y;
      SplitOnFirst(x[1..], y, sep);
      assert [x[0]] + x[1..] == x;
    }
  }

  /** `split` undoes `join` when no piece contains the separator. */
  lemma {:induction false} SplitJoin(lines: seq<string>, sep: char)
    requires |lines| >= 1
    requires forall i :: 0 <= i < |lines| ==> sep !in lines[i]
    ensures SplitOn(JoinWith(lines, sep), sep) == lines
  {
    if |lines| == 1 {
      SplitOnNoSep(lines[0], sep);
    } else {
      SplitJoin(lines[1..], sep);
      SplitOnFirst(lines[0], JoinWith(lines[1..], sep), sep);
      assert [lines[0]] + lines[1..] == lines;
    }
  }

  /** `s.includes(sub)`. */
  predicate Contains(s: string, sub: string) {
    exists i :: 0 <= i <= |s| - |sub| && OccursAt(s, sub, i)
  }

  predicate OccursAt(s: string, sub: string, i: int)
    requires 0 <= i <= |s| - |sub|
  {
    s[i..i + |sub|] == sub
  }

  /** A slice of a slice is a slice of the whole. */
  lemma SliceOfSlice(t: string, a: nat, b: nat, c: nat, d: nat)
    requires a <= b <= |t| && c <= d <= b - a
    ensures t[a..b][c..d] == t[a + c..a + d]
  {
    var u := t[a..b][c..d];
    var v := t[a + c..a + d];
    forall k | 0 <= k < |u| ensures u[k] == v[k] {
      assert u[k] == t[a..b][c + k];
    }
  }
}
