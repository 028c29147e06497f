/**
 * Python `str` operations over ASCII characters, with the character classes
 * `\w` and `\s` of Python's regular expressions. The notebook calls `lower`,
 * `strip`, `split(sep)` and `replace`; `lstrip` and `rstrip` are the two
 * halves of `strip`; `split()` and `' '.join` are the reference that the
 * whitespace collapse is specified against; `endswith` is the test `np.save`
 * makes on a file name.
 */
module PyString {

  /** `\w`: letters, digits and underscore (the ASCII part of Python's class). */
  predicate IsWordChar(c: char) {
    'a' <= c <= 'z' || 'A' <= c <= 'Z' || '0' <= c <= '9' || c == '_'
  }

  /** `\s` and `str.isspace()` on ASCII: tab to carriage return, the four
      information separators 0x1C-0x1F, and the space itself. */
  predicate IsSpace(c: char) {
    9 <= c as int <= 13 || 28 <= c as int <= 31 || c == ' '
  }

  predicate IsUpper(c: char) {
    'A' <= c <= 'Z'
  }

  /** A non-empty run of non-whitespace characters. */
  predicate IsWord(w: string) {
    w != [] && forall i :: 0 <= i < |w| ==> !IsSpace(w[i])
  }

  predicate AllSpace(s: string) {
    forall i :: 0 <= i < |s| ==> IsSpace(s[i])
  }

  /** No two whitespace characters stand side by side. */
  ghost predicate NoAdjacentSpaces(s: string) {
    forall i, j :: 0 <= i < j < |s| && j == i + 1 ==> !(IsSpace(s[i]) && IsSpace(s[j]))
  }

  predicate EndsWith(s: string, suffix: string) {
    |suffix| <= |s| && s[|s| - |suffix|..] == suffix
  }

  // ---------------------------------------------------------------------
  // lower

  /** `str.lower()` on one character: only the class of upper-case letters changes. */
  function LowerChar(c: char): (d: char)
    ensures !IsUpper(d)
    ensures IsWordChar(d) == IsWordChar(c) && IsSpace(d) == IsSpace(c)
    ensures !IsUpper(c) ==> d == c
    ensures IsUpper(c) ==> d as int - 'a' as int == c as int - 'A' as int
  {
    if IsUpper(c) then (c as int + 32) as char else c
  }

  /** `str.lower()`. */
  function Lower(s: string): (r: string)
    ensures |r| == |s|
    ensures forall i :: 0 <= i < |r| ==> !IsUpper(r[i])
    ensures forall i :: 0 <= i < |r| ==>
              (IsWordChar(r[i]) <==> IsWordChar(s[i])) && (IsSpace(r[i]) <==> IsSpace(s[i]))
    ensures forall i :: 0 <= i < |s| ==> r[i] == LowerChar(s[i])
    ensures forall i :: 0 <= i < |s| && !IsUpper(s[i]) ==> r[i] == s[i]
    ensures (forall i :: 0 <= i < |s| ==> !IsUpper(s[i])) ==> r == s
  {
    seq(|s|, i requires 0 <= i < |s| => LowerChar(s[i]))
  }

  // ---------------------------------------------------------------------
  // strip

  /** `str.lstrip()`: drops the leading whitespace. */
  function StripLeft(s: string): (r: string)
    ensures |r| <= |s|
  {
    if s != [] && IsSpace(s[0]) then StripLeft(s[1..]) else s
  }

  /** What `lstrip` leaves is a suffix of its input; everything it dropped is
      whitespace and what it kept does not start with whitespace. */
  lemma {:induction false} StripLeftSpec(s: string)
    ensures var r := StripLeft(s);
      && r == s[|s| - |r|..]
      && (forall i :: 0 <= i < |s| - |r| ==> IsSpace(s[i]))
      && (r == [] || !IsSpace(r[0]))
  {
    if s != [] && IsSpace(s[0]) {
      StripLeftSpec(s[1..]);
    }
  }

  /** What `lstrip` keeps does not start with whitespace. */
  lemma {:induction false} StripLeftStart(s: string)
    ensures StripLeft(s) == [] || !IsSpace(StripLeft(s)[0])
  {
    if s != [] && IsSpace(s[0]) {
      StripLeftStart(s[1..]);
    }
  }

  /** `str.rstrip()`: the prefix left before the trailing whitespace. */
  function StripRight(s: string): (r: string)
    ensures |r| <= |s| && r == s[..|r|]
    ensures forall i :: |r| <= i < |s| ==> IsSpace(s[i])
    ensures r == [] || !IsSpace(r[|r| - 1])
  {
    if s != [] && IsSpace(s[|s| - 1]) then StripRight(s[..|s| - 1]) else s
  }

  /** `str.strip()`: empty exactly for all-whitespace input, and otherwise
      bounded by non-whitespace characters. */
  function Strip(s: string): (r: string)
    ensures r == [] <==> AllSpace(s)
    ensures r != [] ==> !IsSpace(r[0]) && !IsSpace(r[|r| - 1])
  {
    var t := StripLeft(s);
    StripLeftSpec(s);
    var r := StripRight(t);
    assert r == [] ==> t == [];
    r
  }

  /** `strip` only removes characters: every character it keeps comes from
      its input. */
  lemma StripKeepsChars(s: string)
    ensures forall i :: 0 <= i < |Strip(s)| ==> Strip(s)[i] in s
  {
    var t := StripLeft(s);
    StripLeftSpec(s);
    var r := StripRight(t);
    assert forall i :: 0 <= i < |r| ==> r[i] == t[i];
  }

  // ---------------------------------------------------------------------
  // split() and join

  /** The longest whitespace-free prefix of `s`. */
  function TakeWord(s: string): (w: string)
    ensures |w| <= |s| && w == s[..|w|]
    ensures forall i :: 0 <= i < |w| ==> !IsSpace(w[i])
    ensures |w| == |s| || IsSpace(s[|w|])
  {
    if s == [] || IsSpace(s[0]) then [] else [s[0]] + TakeWord(s[1..])
  }

  /** `str.split()` with no separator: the maximal runs of non-whitespace, in order. */
  function Words(s: string): (ws: seq<string>)
    ensures forall k :: 0 <= k < |ws| ==> IsWord(ws[k])
    decreases |s|
  {
    var t := StripLeft(s);
    if t == [] then []
    else
      var w := TakeWord(t);
      assert w != [] by { StripLeftStart(s); }
      var ws := [w] + Words(t[|w|..]);
      assert ws[0] == w && ws[1..] == Words(t[|w|..]);
      ws
  }

  /** `sep.join(parts)`. */
  function Join(parts: seq<string>, sep: char): string
  {
    if parts == [] then []
    else if |parts| == 1 then parts[0]
    else parts[0] + [sep] + Join(parts[1..], sep)
  }

  /** `s.split(sep)`: the pieces between the occurrences of `sep`; joining
      them with `sep` gives `s` back. */
  function Split(s: string, sep: char): (parts: seq<string>)
    ensures |parts| >= 1
    ensures forall k :: 0 <= k < |parts| ==> sep !in parts[k]
    ensures Join(parts, sep) == s
  {
    if s == [] then [[]]
    else
      var rest := Split(s[1..], sep);
      if s[0] == sep then
        assert ([[]] + rest)[1..] == rest;
        [[]] + rest
      else
        var parts := [[s[0]] + rest[0]] + rest[1..];
        assert |rest| > 1 ==> Join(rest, sep) == rest[0] + [sep] + Join(rest[1..], sep);
        assert parts[1..] == rest[1..];
        assert s == [s[0]] + s[1..];
        parts
  }

  /** A string without the separator splits into itself alone. */
  lemma {:induction false} SplitWithoutSep(a: string, sep: char)
    requires sep !in a
    ensures Split(a, sep) == [a]
  {
    if a != [] {
      SplitWithoutSep(a[1..], sep);
      assert [a[0]] + a[1..] == a;
    }
  }

  /** Splitting peels off the piece before the first separator. */
  lemma {:induction false} SplitAfterPiece(a: string, b: string, sep: char)
    requires sep !in a
    ensures Split(a + [sep] + b, sep) == [a] + Split(b, sep)
  {
    var s := a + [sep] + b;
    if a == [] {
      assert s[1..] == b;
    } else {
      assert s[1..] == a[1..] + [sep] + b;
      SplitAfterPiece(a[1..], b, sep);
      assert [a[0]] + a[1..] == a;
    }
  }

  /** Splitting at a separator splits the two sides independently. */
  lemma {:induction false} SplitAppend(a: string, b: string, sep: char)
    ensures Split(a + [sep] + b, sep) == Split(a, sep) + Split(b, sep)
  {
    var s := a + [sep] + b;
    if a == [] {
      assert s[1..] == b;
    } else {
      assert s[1..] == a[1..] + [sep] + b;
      SplitAppend(a[1..], b, sep);
      if a[0] != sep {
        PrependToFirst([a[0]], Split(a[1..], sep), Split(b, sep));
      }
    }
  }

  /** Extending the first part of a list of parts, before or after appending
      more parts. */
  lemma PrependToFirst(x: string, r1: seq<string>, r2: seq<string>)
    requires r1 != []
    ensures [x + (r1 + r2)[0]] + (r1 + r2)[1..] == ([x + r1[0]] + r1[1..]) + r2
  {
    assert (r1 + r2)[0] == r1[0] && (r1 + r2)[1..] == r1[1..] + r2;
  }

  /** The join of two or more parts ends with the separator and the last part. */
  lemma {:induction false} JoinLast(parts: seq<string>, sep: char)
    requires |parts| >= 2
    ensures Join(parts, sep) == Join(parts[..|parts| - 1], sep) + [sep] + parts[|parts| - 1]
  {
    var n := |parts|;
    if n > 2 {
      var init, tail := parts[..n - 1], parts[1..];
      JoinLast(tail, sep);
      assert tail[..n - 2] == init[1..];
      assert tail[n - 2] == parts[n - 1];
      JoinRegroup(parts[0], sep, Join(init[1..], sep), parts[n - 1]);
    }
  }

  lemma JoinRegroup(x: string, sep: char, mid: string, last: string)
    ensures x + [sep] + (mid + [sep] + last) == (x + [sep] + mid) + [sep] + last
  {
  }

  /** `sep.join` followed by `split(sep)` gives the pieces back when none of
      them holds the separator (the converse of Split's own round trip). */
  lemma {:induction false} SplitJoinRoundTrip(parts: seq<string>, sep: char)
    requires |parts| >= 1
    requires forall k :: 0 <= k < |parts| ==> sep !in parts[k]
    ensures Split(Join(parts, sep), sep) == parts
  {
    if |parts| == 1 {
      SplitWithoutSep(parts[0], sep);
    } else {
      SplitJoinRoundTrip(parts[1..], sep);
      SplitAfterPiece(parts[0], Join(parts[1..], sep), sep);
      assert [parts[0]] + parts[1..] == parts;
    }
  }

  /** The first word of a string that starts with a whole word is that word. */
  lemma {:induction false} TakeWordOfWord(w: string, rest: string)
    requires forall i :: 0 <= i < |w| ==> !IsSpace(w[i])
    requires rest == [] || IsSpace(rest[0])
    ensures TakeWord(w + rest) == w
  {
    if w != [] {
      assert (w + rest)[1..] == w[1..] + rest;
      TakeWordOfWord(w[1..], rest);
      assert [w[0]] + w[1..] == w;
    }
  }

  /** Leading whitespace does not change `split()`. */
  lemma WordsIgnoreLeadingSpace(s: string)
    ensures Words(s) == Words(StripLeft(s))
  {
    var t := StripLeft(s);
    StripLeftStart(s);
    assert StripLeft(t) == t;
  }

  lemma StripLeftSkipsSpace(c: char, t: string)
    requires IsSpace(c)
    ensures StripLeft([c] + t) == StripLeft(t)
  {
    assert ([c] + t)[1..] == t;
  }

  /** `split()` of a word followed by whitespace (or nothing) starts with that word. */
  lemma WordsAfterWord(w: string, rest: string)
    requires IsWord(w)
    requires rest == [] || IsSpace(rest[0])
    ensures Words(w + rest) == [w] + Words(rest)
  {
    var s := w + rest;
    assert StripLeft(s) == s by { assert s[0] == w[0]; }
    TakeWordOfWord(w, rest);
    assert s[|w|..] == rest;
  }

  /** `split()` skips a separating space in front of a word. */
  lemma WordsAfterSpace(tail: string)
    requires tail != [] && !IsSpace(tail[0])
    ensures Words([' '] + tail) == Words(tail)
  {
    WordsIgnoreLeadingSpace([' '] + tail);
    StripLeftSkipsSpace(' ', tail);
  }

  /** A join of words starts with the first letter of the first word. */
  lemma JoinStart(ws: seq<string>, sep: char)
    requires ws != [] && ws[0] != []
    ensures Join(ws, sep) != [] && Join(ws, sep)[0] == ws[0][0]
  {
  }

  /** Regrouping a concatenation of four strings. */
  lemma Regroup(a: string, b: string, c: string, d: string)
    ensures a + (b + (c + d)) == (a + b + c) + d
  {
  }

  /** `s.split()` is empty exactly when `s` is all whitespace. */
  lemma NoWordsIffAllSpace(s: string)
    ensures Words(s) == [] <==> AllSpace(s)
  {
    var t := StripLeft(s);
    StripLeftSpec(s);
    if t != [] {
      assert !IsSpace(s[|s| - |t|]);
    }
  }

  /** A join with more than one part: the first part, the separator, then the
      join of the others. */
  lemma JoinCons(w: string, ws: seq<string>, sep: char)
    requires ws != []
    ensures Join([w] + ws, sep) == w + [sep] + Join(ws, sep)
  {
    assert ([w] + ws)[1..] == ws;
  }

  /** One step of `split()` over a join: the first word comes off whole. */
  lemma WordsOfJoinStep(ws: seq<string>)
    requires |ws| > 1 && IsWord(ws[0]) && IsWord(ws[1])
    ensures Words(Join(ws, ' ')) == [ws[0]] + Words(Join(ws[1..], ' '))
  {
    var tail := Join(ws[1..], ' ');
    var rest := [' '] + tail;
    assert Join(ws, ' ') == ws[0] + rest;
    WordsAfterWord(ws[0], rest);
    JoinStart(ws[1..], ' ');
    WordsAfterSpace(tail);
  }

  /** `' '.join(ws).split() == ws` for whitespace-free, non-empty words. */
  lemma {:induction false} WordsOfJoin(ws: seq<string>)
    requires forall k :: 0 <= k < |ws| ==> IsWord(ws[k])
    ensures Words(Join(ws, ' ')) == ws
  {
    if |ws| == 1 {
      WordsAfterWord(ws[0], []);
      assert ws[0] + [] == ws[0];
    } else if |ws| > 1 {
      assert ws == [ws[0]] + ws[1..];
      WordsOfJoinStep(ws);
      WordsOfJoin(ws[1..]);
    }
  }

  /** Joining words with single spaces gives a string that is empty only for
      no words and has no whitespace at either end. */
  lemma {:induction false} JoinEdges(ws: seq<string>)
    requires forall k :: 0 <= k < |ws| ==> IsWord(ws[k])
    ensures var b := Join(ws, ' ');
      && (b == [] <==> ws == [])
      && (b != [] ==> !IsSpace(b[0]) && !IsSpace(b[|b| - 1]))
  {
    if |ws| > 1 {
      JoinEdges(ws[1..]);
      var tail := Join(ws[1..], ' ');
      assert Join(ws, ' ') == ws[0] + [' '] + tail;
    }
  }

  /** Inside words joined by single spaces, the space is the only whitespace
      and never two of it stand side by side (the edges are `JoinEdges`). */
  lemma {:induction false} JoinOfWordsShape(ws: seq<string>)
    requires forall k :: 0 <= k < |ws| ==> IsWord(ws[k])
    ensures var b := Join(ws, ' ');
      && (forall i :: 0 <= i < |b| && IsSpace(b[i]) ==> b[i] == ' ')
      && NoAdjacentSpaces(b)
  {
    if |ws| > 1 {
      var w, tail := ws[0], Join(ws[1..], ' ');
      JoinOfWordsShape(ws[1..]);
      JoinEdges(ws[1..]);
      var b := w + [' '] + tail;
      assert Join(ws, ' ') == b;
      forall i | 0 <= i < |b| && IsSpace(b[i]) ensures b[i] == ' ' {
        if i > |w| { assert b[i] == tail[i - |w| - 1]; }
      }
      forall i, j | 0 <= i < j < |b| && j == i + 1 ensures !(IsSpace(b[i]) && IsSpace(b[j])) {
        if i > |w| { assert b[i] == tail[i - |w| - 1] && b[j] == tail[j - |w| - 1]; }
      }
    }
  }

  // ---------------------------------------------------------------------
  // replace

  predicate MatchAt(s: string, i: nat, pattern: string) {
    i + |pattern| <= |s| && s[i..i + |pattern|] == pattern
  }

  predicate Occurs(pattern: string, s: string) {
    exists i: nat :: i <= |s| && MatchAt(s, i, pattern)
  }

  /** A slice of `s[1..]` is the same slice of `s` shifted by one. */
  lemma SliceOfTail(s: string, i: nat, n: nat)
    requires s != [] && i + n <= |s| - 1
    ensures s[1..][i..i + n] == s[i + 1..i + 1 + n]
  {
    var x, y := s[1..][i..i + n], s[i + 1..i + 1 + n];
    forall k | 0 <= k < n ensures x[k] == y[k] {
      assert x[k] == s[1..][i + k] == s[i + 1 + k];
    }
  }

  /** `s.replace(pattern, replacement)`: scans left to right and replaces every
      non-overlapping occurrence; a string without one is returned unchanged. */
  function Replace(s: string, pattern: string, replacement: string): (r: string)
    requires pattern != []
    ensures !Occurs(pattern, s) ==> r == s
    decreases |s|
  {
    if |s| < |pattern| then s
    else if s[..|pattern|] == pattern then
      assert MatchAt(s, 0, pattern);
      replacement + Replace(s[|pattern|..], pattern, replacement)
    else
      assert forall i: nat :: MatchAt(s[1..], i, pattern) ==> MatchAt(s, i + 1, pattern) by {
        forall i: nat | MatchAt(s[1..], i, pattern) ensures MatchAt(s, i + 1, pattern) {
          SliceOfTail(s, i, |pattern|);
        }
      }
      [s[0]] + Replace(s[1..], pattern, replacement)
  }

  /** Where no occurrence starts, `replace` copies one character and moves on. */
  lemma ReplaceCopiesChar(s: string, pattern: string, replacement: string)
    requires pattern != [] && s != []
    requires !MatchAt(s, 0, pattern)
    ensures Replace(s, pattern, replacement) == [s[0]] + Replace(s[1..], pattern, replacement)
  {
    if |s| < |pattern| {
      assert [s[0]] + s[1..] == s;
    }
  }

  /** An occurrence at the very start is replaced, and the scan goes on after it. */
  lemma ReplaceAtStart(pattern: string, t: string, replacement: string)
    requires pattern != []
    ensures Replace(pattern + t, pattern, replacement)
         == replacement + Replace(t, pattern, replacement)
  {
    var s := pattern + t;
    assert s[..|pattern|] == pattern;
    assert s[|pattern|..] == t;
  }

  /** Putting the first character back in front of the rest. */
  lemma ConsAppend(a: string, r: string)
    requires a != []
    ensures [a[0]] + (a[1..] + r) == a + r
  {
    assert a == [a[0]] + a[1..];
  }

  /** No occurrence starts inside a non-empty `a`, so none starts at the head
      of `a + pattern + b`. */
  lemma NoMatchAtHead(a: string, b: string, pattern: string)
    requires pattern != [] && a != [] && !Occurs(pattern, a + pattern[..|pattern| - 1])
    ensures !MatchAt(a + pattern + b, 0, pattern)
  {
    var n := |pattern|;
    var s, c := a + pattern + b, a + pattern[..n - 1];
    assert !MatchAt(c, 0, pattern);
    forall k | 0 <= k < n ensures s[k] == c[k] {
      if k >= |a| { assert s[k] == pattern[k - |a|] == c[k]; }
    }
    assert s[..n] == c[..n];
  }

  /** An occurrence in `c[1..]` is one in `c`, shifted by one. */
  lemma NoOccurrenceInTail(c: string, pattern: string)
    requires pattern != [] && c != [] && !Occurs(pattern, c)
    ensures !Occurs(pattern, c[1..])
  {
    forall i: nat | i <= |c| - 1 ensures !MatchAt(c[1..], i, pattern) {
      if i + |pattern| <= |c| - 1 {
        SliceOfTail(c, i, |pattern|);
        assert !MatchAt(c, i + 1, pattern);
      }
    }
  }

  /** The head and the tail of `a + y + z` when `a` is not empty. */
  lemma HeadTail3(a: string, y: string, z: string)
    requires a != []
    ensures (a + y + z)[0] == a[0] && (a + y + z)[1..] == a[1..] + y + z
  {
    assert (a + y + z)[1..] == a[1..] + y + z;
  }

  /** Putting the first character back in front of `a[1..] + y + z`. */
  lemma ConsAppend3(a: string, y: string, z: string)
    requires a != []
    ensures [a[0]] + (a[1..] + y + z) == a + y + z
  {
    assert a == [a[0]] + a[1..];
  }

  /** Before the first occurrence, `replace` copies the head of `a` and moves on. */
  lemma ReplaceCopiesHead(a: string, b: string, pattern: string, replacement: string)
    requires pattern != [] && a != [] && !Occurs(pattern, a + pattern[..|pattern| - 1])
    ensures Replace(a + pattern + b, pattern, replacement)
         == [a[0]] + Replace(a[1..] + pattern + b, pattern, replacement)
  {
    NoMatchAtHead(a, b, pattern);
    HeadTail3(a, pattern, b);
    ReplaceCopiesChar(a + pattern + b, pattern, replacement);
  }

  /** No occurrence starts inside `a[1..]` when none starts inside `a`. */
  lemma NoOccurrenceAfterHead(a: string, pattern: string)
    requires pattern != [] && a != [] && !Occurs(pattern, a + pattern[..|pattern| - 1])
    ensures !Occurs(pattern, a[1..] + pattern[..|pattern| - 1])
  {
    var c := a + pattern[..|pattern| - 1];
    NoOccurrenceInTail(c, pattern);
    assert c[1..] == a[1..] + pattern[..|pattern| - 1];
  }

  /** `ReplaceAtStart` with an empty prefix written in front. */
  lemma ReplaceAtStartOfEmpty(a: string, b: string, pattern: string, replacement: string)
    requires pattern != [] && a == []
    ensures Replace(a + pattern + b, pattern, replacement)
         == a + replacement + Replace(b, pattern, replacement)
  {
    assert a + pattern + b == pattern + b;
    assert a + replacement + Replace(b, pattern, replacement) == replacement + Replace(b, pattern, replacement);
    ReplaceAtStart(pattern, b, replacement);
  }

  /** `replace` replaces the leftmost occurrence and goes on after it: when no
      occurrence starts inside `a`, the first one in `a + pattern + b` is the
      `pattern` written after `a`. */
  lemma {:induction false} ReplaceFirst(a: string, b: string, pattern: string, replacement: string)
    requires pattern != [] && !Occurs(pattern, a + pattern[..|pattern| - 1])
    ensures Replace(a + pattern + b, pattern, replacement)
         == a + replacement + Replace(b, pattern, replacement)
  {
    if a == [] {
      ReplaceAtStartOfEmpty(a, b, pattern, replacement);
    } else {
      ReplaceCopiesHead(a, b, pattern, replacement);
      NoOccurrenceAfterHead(a, pattern);
      ReplaceFirst(a[1..], b, pattern, replacement);
      ConsAppend3(a, replacement, Replace(b, pattern, replacement));
    }
  }

  /** A prefix that does not hold the first character of `pattern` is copied
      unchanged, since no occurrence can start inside it. */
  lemma {:induction false} ReplaceSkipsPrefix(a: string, rest: string, pattern: string, replacement: string)
    requires pattern != [] && pattern[0] !in a
    ensures Replace(a + rest, pattern, replacement) == a + Replace(rest, pattern, replacement)
  {
    if a != [] {
      var s := a + rest;
      assert s[1..] == a[1..] + rest;
      assert !MatchAt(s, 0, pattern) by {
        assert s[0] == a[0];
        if |pattern| <= |s| {
          assert s[0..|pattern|][0] == s[0];
        }
      }
      ReplaceCopiesChar(s, pattern, replacement);
      ReplaceSkipsPrefix(a[1..], rest, pattern, replacement);
      var r := Replace(rest, pattern, replacement);
      ConsAppend(a, r);
    } else {
      assert a + rest == rest;
    }
  }
}
