/**
 * The caption normaliser `preprocess`: lower-case the text, delete every
 * character that is neither a word character nor whitespace, turn every run
 * of whitespace into a single space, trim both ends, and wrap the result in
 * the `[start]` and `[end]` tokens.
 */
module CaptionText {
  import opened PyString

  const StartToken := "[start]"
  const EndToken := "[end]"

  /** A character a caption body may hold: a space or a lower-case word character. */
  predicate IsCaptionChar(c: char) {
    c == ' ' || (IsWordChar(c) && !IsUpper(c))
  }

  /** What a normalised caption body looks like: caption characters only, no
      space at either end and no two spaces side by side. */
  ghost predicate IsCleanBody(b: string) {
    && (forall i :: 0 <= i < |b| ==> IsCaptionChar(b[i]))
    && (b != [] ==> b[0] != ' ' && b[|b| - 1] != ' ')
    && NoAdjacentSpaces(b)
  }

  /** `re.sub(r'[^\w\s]', '', text)`: keeps the word characters and the
      whitespace, in their order, and drops everything else. */
  function RemovePunctuation(s: string): (r: string)
    ensures |r| <= |s|
  {
    if s == [] then []
    else if IsWordChar(s[0]) || IsSpace(s[0]) then [s[0]] + RemovePunctuation(s[1..])
    else RemovePunctuation(s[1..])
  }

  /** `re.sub('\s+', ' ', text)`: every maximal run of whitespace becomes one
      space; every other character is copied. */
  function CollapseWhitespace(s: string): (r: string)
    ensures |r| <= |s|
    decreases |s|
  {
    if s == [] then []
    else if IsSpace(s[0]) then [' '] + CollapseWhitespace(StripLeft(s))
    else [s[0]] + CollapseWhitespace(s[1..])
  }

  /** The punctuation filter is no longer than its input, keeps only word
      characters and whitespace, and keeps each such character of its input. */
  lemma {:induction false} RemovePunctuationKeeps(s: string)
    ensures var r := RemovePunctuation(s);
      && |r| <= |s|
      && (forall i :: 0 <= i < |r| ==> IsWordChar(r[i]) || IsSpace(r[i]))
      && (forall c :: c in r <==> c in s && (IsWordChar(c) || IsSpace(c)))
  {
    if s != [] {
      RemovePunctuationKeeps(s[1..]);
      assert s == [s[0]] + s[1..];
    }
  }

  /** The filter works character by character: filtering a concatenation
      filters each part. */
  lemma {:induction false} RemovePunctuationAppend(a: string, b: string)
    ensures RemovePunctuation(a + b) == RemovePunctuation(a) + RemovePunctuation(b)
  {
    if a != [] {
      assert (a + b)[1..] == a[1..] + b;
      RemovePunctuationAppend(a[1..], b);
    } else {
      assert a + b == b;
    }
  }

  /** One character is kept when it is a word character or whitespace, and
      deleted otherwise; with `RemovePunctuationAppend` this fixes the filter
      on every string. */
  lemma RemovePunctuationChar(c: char)
    ensures RemovePunctuation([c]) == if IsWordChar(c) || IsSpace(c) then [c] else []
  {
    assert [c][1..] == [];
  }

  /** Text made only of word characters and whitespace has no punctuation to
      remove. */
  lemma {:induction false} RemovePunctuationOfClean(s: string)
    requires forall i :: 0 <= i < |s| ==> IsWordChar(s[i]) || IsSpace(s[i])
    ensures RemovePunctuation(s) == s
  {
    if s != [] {
      RemovePunctuationOfClean(s[1..]);
      assert s == [s[0]] + s[1..];
    }
  }

  /** After the collapse the only whitespace left is the space, and every other
      character comes from the input. */
  lemma {:induction false} CollapseWhitespaceChars(s: string)
    ensures var r := CollapseWhitespace(s);
      && |r| <= |s|
      && forall i :: 0 <= i < |r| ==> r[i] == ' ' || (!IsSpace(r[i]) && r[i] in s)
    decreases |s|
  {
    if s == [] {
    } else if IsSpace(s[0]) {
      var t := StripLeft(s);
      CollapseWhitespaceChars(t);
      StripLeftSpec(s);
      assert forall c :: c in t ==> c in s;
    } else {
      CollapseWhitespaceChars(s[1..]);
      assert forall c :: c in s[1..] ==> c in s;
    }
  }

  /** The caption body: the normalised text between the two tokens. */
  function Body(text: string): (b: string)
    ensures b != [] ==> !IsSpace(b[0]) && !IsSpace(b[|b| - 1])
  {
    Strip(CollapseWhitespace(RemovePunctuation(Lower(text))))
  }

  /** `preprocess(text)`. */
  function Preprocess(text: string): (r: string)
    ensures |r| >= |StartToken| + |EndToken| + 2
  {
    StartToken + " " + Body(text) + " " + EndToken
  }

  // ---------------------------------------------------------------------
  // Whitespace normalisation is `' '.join(s.split())`

  /** Copying a whitespace-free prefix through the whitespace collapse. */
  lemma {:induction false} CollapseAfterWord(w: string, rest: string)
    requires forall i :: 0 <= i < |w| ==> !IsSpace(w[i])
    ensures CollapseWhitespace(w + rest) == w + CollapseWhitespace(rest)
  {
    if w == [] {
      assert w + rest == rest;
    } else {
      assert (w + rest)[1..] == w[1..] + rest;
      CollapseAfterWord(w[1..], rest);
      assert w == [w[0]] + w[1..];
    }
  }

  /** Leading whitespace, however long, collapses to one space. */
  lemma CollapseLeadingSpace(s: string)
    requires s != [] && IsSpace(s[0])
    ensures CollapseWhitespace(s) == [' '] + CollapseWhitespace(StripLeft(s))
  {
  }

  /** A string that starts with a word splits into that word and the rest,
      both for the collapse and for `split()`. */
  lemma SplitFirstWord(s: string)
    requires s != [] && !IsSpace(s[0])
    ensures var w := TakeWord(s);
      && IsWord(w)
      && s == w + s[|w|..]
      && Words(s) == [w] + Words(s[|w|..])
      && CollapseWhitespace(s) == w + CollapseWhitespace(s[|w|..])
      && (s[|w|..] == [] || IsSpace(s[|w|..][0]))
  {
    var w := TakeWord(s);
    assert StripLeft(s) == s;
    assert s == w + s[|w|..];
    CollapseAfterWord(w, s[|w|..]);
  }

  /** One space when the string ends in whitespace, nothing otherwise. */
  function Trail(s: string): (r: string)
    ensures AllSpace(r)
  {
    if s != [] && IsSpace(s[|s| - 1]) then [' '] else []
  }

  /** A non-empty suffix ends where the whole string ends. */
  lemma TrailOfSuffix(s: string, k: nat)
    requires k < |s|
    ensures Trail(s[k..]) == Trail(s)
  {
    assert s[k..][|s| - k - 1] == s[|s| - 1];
  }

  /** The collapse of `s` is its words joined by single spaces, followed by
      one space when `s` ends in whitespace. */
  ghost predicate CollapsesToWords(s: string) {
    CollapseWhitespace(s) == Join(Words(s), ' ') + Trail(s)
  }

  /** For a string that starts with a word (or is empty), the collapse is the
      words joined by single spaces, plus one space when the string ends in
      whitespace. */
  lemma {:induction false} CollapseIsJoinedWords(s: string)
    requires s == [] || !IsSpace(s[0])
    ensures CollapsesToWords(s)
    decreases |s|
  {
    if s != [] {
      var w := TakeWord(s);
      var rest := s[|w|..];
      if rest == [] {
        CollapseOneWord(s);
      } else if StripLeft(rest) == [] {
        CollapseWordThenSpace(s);
      } else {
        assert w != [] by { assert !IsSpace(s[0]); }
        StripLeftStart(rest);
        CollapseIsJoinedWords(StripLeft(rest));
        CollapseWordThenMore(s);
      }
    }
  }

  /** The case of CollapseIsJoinedWords where the string is a single word. */
  lemma CollapseOneWord(s: string)
    requires s != [] && !IsSpace(s[0]) && s[|TakeWord(s)|..] == []
    ensures CollapsesToWords(s)
  {
    SplitFirstWord(s);
    var w := TakeWord(s);
    assert s == w;
    assert Words(s) == [w];
    assert CollapseWhitespace(s) == w + CollapseWhitespace([]);
    assert Trail(s) == [];
  }

  /** The case of CollapseIsJoinedWords where only whitespace follows the first word. */
  lemma CollapseWordThenSpace(s: string)
    requires s != [] && !IsSpace(s[0])
    requires var rest := s[|TakeWord(s)|..]; rest != [] && StripLeft(rest) == []
    ensures CollapsesToWords(s)
  {
    SplitFirstWord(s);
    var w := TakeWord(s);
    var rest := s[|w|..];
    CollapseLeadingSpace(rest);
    WordsIgnoreLeadingSpace(rest);
    assert Words(rest) == [];
    assert [w] + Words(rest) == [w];
    assert Join([w], ' ') == w;
    assert CollapseWhitespace(rest) == [' '];
    assert AllSpace(rest) by { StripLeftSpec(rest); }
    assert s[|s| - 1] == rest[|rest| - 1];
    assert Trail(s) == [' '];
  }

  /** Stripping leading whitespace off a string that is not all whitespace
      leaves its trailing space as it was. */
  lemma TrailOfStripLeft(s: string)
    requires StripLeft(s) != []
    ensures Trail(StripLeft(s)) == Trail(s)
  {
    StripLeftSpec(s);
    TrailOfSuffix(s, |s| - |StripLeft(s)|);
  }

  /** The words after the first one: skipping the whitespace that follows the
      first word changes neither the collapse nor the words nor the trail. */
  lemma AfterFirstWord(s: string)
    requires s != [] && !IsSpace(s[0])
    requires var rest := s[|TakeWord(s)|..]; rest != [] && StripLeft(rest) != []
    ensures var w, t := TakeWord(s), StripLeft(s[|TakeWord(s)|..]);
      && CollapseWhitespace(s) == w + ([' '] + CollapseWhitespace(t))
      && Words(s) == [w] + Words(t)
      && Trail(s) == Trail(t)
  {
    SplitFirstWord(s);
    var w := TakeWord(s);
    var rest := s[|w|..];
    CollapseLeadingSpace(rest);
    WordsIgnoreLeadingSpace(rest);
    TrailOfSuffix(s, |w|);
    TrailOfStripLeft(rest);
  }

  /** The case of CollapseIsJoinedWords where more words follow the first one. */
  lemma CollapseWordThenMore(s: string)
    requires s != [] && !IsSpace(s[0])
    requires var rest := s[|TakeWord(s)|..];
      rest != [] && StripLeft(rest) != [] && CollapsesToWords(StripLeft(rest))
    ensures CollapsesToWords(s)
  {
    var w, t := TakeWord(s), StripLeft(s[|TakeWord(s)|..]);
    AfterFirstWord(s);
    StripLeftStart(s[|w|..]);
    SplitFirstWord(t);
    var ws := Words(t);
    JoinCons(w, ws, ' ');
    Regroup(w, [' '], Join(ws, ' '), Trail(t));
  }

  /** One space when the string starts with whitespace, nothing otherwise. */
  function Lead(s: string): (r: string)
    ensures AllSpace(r)
  {
    if s != [] && IsSpace(s[0]) then [' '] else []
  }

  /** Leading whitespace collapses to `Lead(s)`. */
  lemma CollapseLead(s: string)
    ensures CollapseWhitespace(s) == Lead(s) + CollapseWhitespace(StripLeft(s))
  {
    if s != [] && IsSpace(s[0]) {
      CollapseLeadingSpace(s);
    } else {
      assert StripLeft(s) == s;
    }
  }

  /** For every string, the collapse is one space for leading whitespace, then
      the words joined by single spaces, then one space for trailing
      whitespace after the first word. */
  lemma CollapseIsLeadAndJoinedWords(s: string)
    ensures CollapseWhitespace(s) == Lead(s) + (Join(Words(s), ' ') + Trail(StripLeft(s)))
  {
    var t := StripLeft(s);
    CollapseLead(s);
    StripLeftStart(s);
    CollapseIsJoinedWords(t);
    WordsIgnoreLeadingSpace(s);
  }

  /** Trimming a string that is padded with whitespace on both sides. */
  lemma StripPadded(lead: string, b: string, trail: string)
    requires AllSpace(lead) && AllSpace(trail)
    requires b != [] ==> !IsSpace(b[0]) && !IsSpace(b[|b| - 1])
    ensures Strip(lead + (b + trail)) == b
  {
    assert lead + (b + trail) == lead + b + trail;
    if b == [] {
      assert AllSpace(lead + (b + trail));
    } else {
      StripAround(lead, b, trail);
    }
  }

  /** Trimming whitespace off both ends of a string bounded by non-whitespace. */
  lemma StripAround(lead: string, b: string, trail: string)
    requires AllSpace(lead) && AllSpace(trail)
    requires b != [] && !IsSpace(b[0]) && !IsSpace(b[|b| - 1])
    ensures Strip(lead + b + trail) == b
  {
    assert lead + b + trail == lead + (b + trail);
    StripLeftPadded(lead, b + trail);
    StripRightPadded(b, trail);
  }

  /** Trimming the left of whitespace followed by a non-whitespace character. */
  lemma StripLeftPadded(lead: string, rest: string)
    requires AllSpace(lead) && rest != [] && !IsSpace(rest[0])
    ensures StripLeft(lead + rest) == rest
  {
    var s := lead + rest;
    var t := StripLeft(s);
    StripLeftSpec(s);
    assert |s| - |t| <= |lead| by { assert !IsSpace(s[|lead|]); }
    assert |s| - |t| >= |lead| by { assert t[0] == s[|s| - |t|]; }
  }

  /** Trimming the right of a non-whitespace character followed by whitespace. */
  lemma StripRightPadded(b: string, trail: string)
    requires AllSpace(trail) && b != [] && !IsSpace(b[|b| - 1])
    ensures StripRight(b + trail) == b
  {
    var t := b + trail;
    var r := StripRight(t);
    assert |r| >= |b| by { assert !IsSpace(t[|b| - 1]); }
    assert |r| <= |b| by { assert r[|r| - 1] == t[|r| - 1]; }
  }

  /** `re.sub('\s+', ' ', s).strip() == ' '.join(s.split())`: the normaliser
      agrees with Python's own word split and join on every input. */
  lemma NormaliseIsJoinedWords(s: string)
    ensures Strip(CollapseWhitespace(s)) == Join(Words(s), ' ')
  {
    var t := StripLeft(s);
    WordsIgnoreLeadingSpace(s);
    CollapseIsJoinedWords(t);
    CollapseLead(s);
    var ws := Words(t);
    var b := Join(ws, ' ');
    JoinEdges(ws);
    StripPadded(Lead(s), b, Trail(t));
  }

  /** Normalising twice changes nothing. */
  lemma NormaliseIdempotent(s: string)
    ensures var n := Strip(CollapseWhitespace(s));
      Strip(CollapseWhitespace(n)) == n
  {
    var ws := Words(s);
    NormaliseIsJoinedWords(s);
    NormaliseIsJoinedWords(Join(ws, ' '));
    WordsOfJoin(ws);
  }

  // ---------------------------------------------------------------------
  // The shape of preprocess's output

  /** The body is the lower-cased, punctuation-free text split on whitespace
      and joined with single spaces. */
  lemma BodyIsJoinedWords(text: string)
    ensures Body(text) == Join(Words(RemovePunctuation(Lower(text))), ' ')
  {
    NormaliseIsJoinedWords(RemovePunctuation(Lower(text)));
  }

  /** Every character of the body is a space or a lower-case word character,
      the body has no space at either end and no two spaces side by side. */
  lemma BodyIsClean(text: string)
    ensures IsCleanBody(Body(text))
  {
    var lowered := Lower(text);
    var kept := RemovePunctuation(lowered);
    var collapsed := CollapseWhitespace(kept);
    var b := Body(text);
    RemovePunctuationKeeps(lowered);
    CollapseWhitespaceChars(kept);
    StripKeepsChars(collapsed);
    BodyIsJoinedWords(text);
    JoinEdges(Words(kept));
    JoinOfWordsShape(Words(kept));
    forall i | 0 <= i < |b| ensures IsCaptionChar(b[i]) {
      assert b[i] in collapsed;
      var j :| 0 <= j < |collapsed| && collapsed[j] == b[i];
      if collapsed[j] != ' ' {
        assert b[i] in kept && !IsSpace(b[i]);
        assert b[i] in lowered;
        var k :| 0 <= k < |lowered| && lowered[k] == b[i];
        assert !IsUpper(lowered[k]);
      }
    }
  }

  /** Wrapping a body in the two tokens: where each part sits in the output. */
  lemma Wrapped(b: string)
    ensures var r := StartToken + " " + b + " " + EndToken;
      && |r| == |b| + 14
      && r[..8] == "[start] "
      && r[|r| - 6..] == " [end]"
      && r[8..|r| - 6] == b
  {
  }

  /** The output always starts with `"[start] "`, ends with `" [end]"`, and
      holds a clean body between them. */
  lemma PreprocessShape(text: string)
    ensures var r := Preprocess(text);
      && |r| >= 14
      && r[..8] == "[start] "
      && r[|r| - 6..] == " [end]"
      && IsCleanBody(r[8..|r| - 6])
  {
    BodyIsClean(text);
    Wrapped(Body(text));
  }

  /** After lower-casing and removing punctuation only whitespace is left
      exactly when the text holds no word character. */
  lemma KeptAllSpaceIff(text: string)
    ensures AllSpace(RemovePunctuation(Lower(text)))
        <==> forall i :: 0 <= i < |text| ==> !IsWordChar(text[i])
  {
    var lowered := Lower(text);
    var kept := RemovePunctuation(lowered);
    RemovePunctuationKeeps(lowered);
    if AllSpace(kept) {
      forall i | 0 <= i < |text| ensures !IsWordChar(text[i]) {
        assert lowered[i] in lowered;
      }
    } else {
      var j :| 0 <= j < |kept| && !IsSpace(kept[j]);
      assert IsWordChar(kept[j]) && kept[j] in lowered;
      var i :| 0 <= i < |lowered| && lowered[i] == kept[j];
      assert IsWordChar(text[i]);
    }
  }

  /** The body is empty exactly when the text holds no word character. */
  lemma BodyEmptyIff(text: string)
    ensures Body(text) == [] <==> forall i :: 0 <= i < |text| ==> !IsWordChar(text[i])
  {
    var kept := RemovePunctuation(Lower(text));
    BodyIsJoinedWords(text);
    var ws := Words(kept);
    assert Join(ws, ' ') == [] <==> ws == [] by {
      if ws != [] {
        assert IsWord(ws[0]);
        JoinStart(ws, ' ');
      }
    }
    NoWordsIffAllSpace(kept);
    KeptAllSpaceIff(text);
  }

  /** The output is exactly `"[start]  [end]"` if and only if the text holds no
      word character (it is empty, or only punctuation and whitespace). */
  lemma PreprocessEmptyIff(text: string)
    ensures Preprocess(text) == "[start]  [end]"
        <==> forall i :: 0 <= i < |text| ==> !IsWordChar(text[i])
  {
    var b := Body(text);
    BodyEmptyIff(text);
    Wrapped(b);
    if b == [] {
      assert StartToken + " " + b + " " + EndToken == "[start]  [end]";
    }
  }

  /** A clean body passes through the normaliser unchanged, so the body of a
      body is itself. */
  lemma BodyFixedPoint(text: string)
    ensures Body(Body(text)) == Body(text)
  {
    var b := Body(text);
    BodyIsClean(text);
    assert Lower(b) == b;
    RemovePunctuationOfClean(b);
    var kept := RemovePunctuation(Lower(text));
    BodyIsJoinedWords(text);
    NormaliseIdempotent(kept);
  }
}
