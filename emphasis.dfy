/**
  Keyword emphasis of the CV's free text (src/components/cv/CVContent.tsx).

  `highlightKeywords` runs one global regular-expression replace per keyword,
  in list order, each over the result of the previous one. The regular
  expression is `\bKEYWORD\b` with the keyword spliced in unescaped, so a `.`
  in a keyword is the wildcard "any character but a line terminator". The
  replacement is `<strong>KEYWORD</strong>`, with the keyword as written in
  the list, whatever text the wildcard matched.
 */
module Emphasis {

  /** The regular-expression class \w without the `u` and `i` flags: ASCII letters, digits and '_'. */
  predicate IsWordChar(c: char) {
    ('a' <= c <= 'z') || ('A' <= c <= 'Z') || ('0' <= c <= '9') || c == '_'
  }

  /** The characters `.` does not match when the `s` flag is absent. */
  predicate IsLineTerminator(c: char) {
    c == '\n' || c == '\r' || c == '\U{2028}' || c == '\U{2029}'
  }

  /**
    One character of the keyword, read as a regular expression, against one
    character of the text. The keyword list uses no metacharacter but `.`.
   */
  predicate CharMatches(pc: char, c: char) {
    if pc == '.' then !IsLineTerminator(c) else pc == c
  }

  /** The assertion \b holds at position i of t: exactly one side of i is a word character. */
  predicate IsBoundary(t: string, i: nat)
    requires i <= |t|
  {
    (i > 0 && IsWordChar(t[i - 1])) != (i < |t| && IsWordChar(t[i]))
  }

  /** The characters of kw, read as a regular expression, match t from position i on. */
  predicate CharsMatch(t: string, i: nat, kw: string)
    requires i + |kw| <= |t|
    decreases |kw|
  {
    |kw| == 0 || (CharMatches(kw[0], t[i]) && CharsMatch(t, i + 1, kw[1..]))
  }

  lemma {:induction false} CharsMatchAt(t: string, i: nat, kw: string, j: nat)
    requires i + |kw| <= |t| && j < |kw|
    requires CharsMatch(t, i, kw)
    ensures CharMatches(kw[j], t[i + j])
    decreases j
  {
    if j > 0 {
      CharsMatchAt(t, i + 1, kw[1..], j - 1);
    }
  }

  /** The regular expression \bkw\b matches t starting at position i (its match is always |kw| long). */
  predicate MatchesAt(t: string, i: nat, kw: string) {
    && i + |kw| <= |t|
    && IsBoundary(t, i)
    && IsBoundary(t, i + |kw|)
    && CharsMatch(t, i, kw)
  }

  /** Some match of \bkw\b starts at or after position p. */
  predicate HasMatchFrom(t: string, kw: string, p: nat) {
    exists q :: p <= q <= |t| && MatchesAt(t, q, kw)
  }

  /** The replacement text. */
  function Wrap(kw: string): string {
    "<strong>" + kw + "</strong>"
  }

  /** s is a suffix of r. */
  predicate IsSuffix(s: string, r: string) {
    |s| <= |r| && r[|r| - |s|..] == s
  }

  /**
    The global replace resumed at position p: the regular expression is tried
    at p, p+1, ...; a match is replaced and the scan resumes right after the
    matched text, so matches never overlap and the inserted replacement is
    never scanned. The look-behind of \b still sees the character before p.
   */
  function ReplaceFrom(t: string, kw: string, p: nat): string
    requires 0 < |kw| && p <= |t|
    decreases |t| - p
  {
    if |t| < p + |kw| then t[p..]
    else if MatchesAt(t, p, kw) then Wrap(kw) + ReplaceFrom(t, kw, p + |kw|)
    else [t[p]] + ReplaceFrom(t, kw, p + 1)
  }

  /** `text.replace(new RegExp('\\b' + kw + '\\b', 'g'), '<strong>' + kw + '</strong>')`. */
  function ReplaceAll(t: string, kw: string): string
    requires 0 < |kw|
  {
    ReplaceFrom(t, kw, 0)
  }

  /** With no match left at or after p, the rest of the text is copied unchanged. */
  lemma {:induction false} ReplaceFromNoMatch(t: string, kw: string, p: nat)
    requires 0 < |kw| && p <= |t|
    requires !HasMatchFrom(t, kw, p)
    ensures ReplaceFrom(t, kw, p) == t[p..]
    decreases |t| - p
  {
    if p + |kw| <= |t| {
      assert !MatchesAt(t, p, kw);
      ReplaceFromNoMatch(t, kw, p + 1);
      assert [t[p]] + t[p + 1..] == t[p..];
    }
  }

  /**
    The first match at or after p, at i, is replaced; the text between p and i
    is copied unchanged, and the scan resumes after the matched text.
   */
  lemma {:induction false} ReplaceFromFirstMatch(t: string, kw: string, p: nat, i: nat)
    requires 0 < |kw| && p <= i
    requires MatchesAt(t, i, kw)
    requires forall q :: p <= q < i ==> !MatchesAt(t, q, kw)
    ensures ReplaceFrom(t, kw, p) == t[p..i] + Wrap(kw) + ReplaceFrom(t, kw, i + |kw|)
    decreases i - p
  {
    if p == i {
      calc {
        ReplaceFrom(t, kw, p);
        == { ReplaceFromWraps(t, kw, p); }
        Wrap(kw) + ReplaceFrom(t, kw, i + |kw|);
        == { assert t[p..i] == []; }
        t[p..i] + Wrap(kw) + ReplaceFrom(t, kw, i + |kw|);
      }
    } else {
      assert !MatchesAt(t, p, kw);
      ReplaceFromFirstMatch(t, kw, p + 1, i);
      CopiedBeforeMatch(t, kw, p, i);
    }
  }

  /** One step of ReplaceFromFirstMatch: a character with no match at it is copied in front. */
  lemma CopiedBeforeMatch(t: string, kw: string, p: nat, i: nat)
    requires 0 < |kw| && p < i && i + |kw| <= |t|
    requires !MatchesAt(t, p, kw)
    requires ReplaceFrom(t, kw, p + 1) == t[p + 1..i] + Wrap(kw) + ReplaceFrom(t, kw, i + |kw|)
    ensures ReplaceFrom(t, kw, p) == t[p..i] + Wrap(kw) + ReplaceFrom(t, kw, i + |kw|)
  {
    var w, r := Wrap(kw), ReplaceFrom(t, kw, i + |kw|);
    calc {
      ReplaceFrom(t, kw, p);
      == { ReplaceFromCopies(t, kw, p); }
      [t[p]] + ReplaceFrom(t, kw, p + 1);
      [t[p]] + (t[p + 1..i] + w + r);
      == { ConsRegroup(t[p], t[p + 1..i], w, r); }
      ([t[p]] + t[p + 1..i]) + w + r;
      == { assert [t[p]] + t[p + 1..i] == t[p..i]; }
      t[p..i] + w + r;
    }
  }

  /** Where a match starts, the pass emits the replacement and resumes after the match. */
  lemma ReplaceFromWraps(t: string, kw: string, p: nat)
    requires 0 < |kw| && MatchesAt(t, p, kw)
    ensures ReplaceFrom(t, kw, p) == Wrap(kw) + ReplaceFrom(t, kw, p + |kw|)
  {
  }

  /** Where no match starts, the pass copies one character and goes on. */
  lemma ReplaceFromCopies(t: string, kw: string, p: nat)
    requires 0 < |kw| && p < |t|
    requires !MatchesAt(t, p, kw)
    ensures ReplaceFrom(t, kw, p) == [t[p]] + ReplaceFrom(t, kw, p + 1)
  {
    if |t| < p + |kw| {
      assert t[p..] == [t[p]] + t[p + 1..];
    }
  }

  lemma ConsRegroup(c: char, a: string, b: string, d: string)
    ensures [c] + (a + b + d) == ([c] + a) + b + d
  {
  }

  /** The replace never shortens the text, and lengthens it exactly when some match is left. */
  lemma {:induction false} ReplaceFromLength(t: string, kw: string, p: nat)
    requires 0 < |kw| && p <= |t|
    ensures |ReplaceFrom(t, kw, p)| >= |t| - p
    ensures |ReplaceFrom(t, kw, p)| > |t| - p <==> HasMatchFrom(t, kw, p)
    decreases |t| - p
  {
    if |t| < p + |kw| {
      assert !HasMatchFrom(t, kw, p) by {
        forall q | p <= q <= |t| ensures !MatchesAt(t, q, kw) { }
      }
    } else if MatchesAt(t, p, kw) {
      ReplaceFromLength(t, kw, p + |kw|);
    } else {
      ReplaceFromLength(t, kw, p + 1);
      if HasMatchFrom(t, kw, p) {
        var q :| p <= q <= |t| && MatchesAt(t, q, kw);
        assert p + 1 <= q;
      }
    }
  }

  /** A replace pass returns its input exactly when the keyword has no whole-word match in it. */
  lemma ReplaceAllIdentity(t: string, kw: string)
    requires 0 < |kw|
    ensures ReplaceAll(t, kw) == t <==> !HasMatchFrom(t, kw, 0)
  {
    ReplaceFromLength(t, kw, 0);
    if !HasMatchFrom(t, kw, 0) {
      ReplaceFromNoMatch(t, kw, 0);
    }
  }

  /**
    A match at i that no match starting between p and i overlaps is wrapped:
    the output from p ends with the replacement followed by the output of the
    scan resumed after the match.
   */
  lemma {:induction false} MatchIsWrapped(t: string, kw: string, p: nat, i: nat)
    requires 0 < |kw| && p <= i
    requires MatchesAt(t, i, kw)
    requires forall q :: p <= q < i && i < q + |kw| ==> !MatchesAt(t, q, kw)
    ensures IsSuffix(Wrap(kw) + ReplaceFrom(t, kw, i + |kw|), ReplaceFrom(t, kw, p))
    decreases i - p
  {
    var tail := Wrap(kw) + ReplaceFrom(t, kw, i + |kw|);
    if p == i {
      ReplaceFromWraps(t, kw, i);
      assert tail[0..] == tail;
    } else if MatchesAt(t, p, kw) {
      assert p + |kw| <= i;
      MatchIsWrapped(t, kw, p + |kw|, i);
      SuffixAfterWrap(t, kw, p, tail);
    } else {
      MatchIsWrapped(t, kw, p + 1, i);
      SuffixAfterCopy(t, kw, p, tail);
    }
  }

  /** A suffix of the output after a match is a suffix of the output from the match. */
  lemma SuffixAfterWrap(t: string, kw: string, p: nat, s: string)
    requires 0 < |kw| && MatchesAt(t, p, kw)
    requires IsSuffix(s, ReplaceFrom(t, kw, p + |kw|))
    ensures IsSuffix(s, ReplaceFrom(t, kw, p))
  {
    ReplaceFromWraps(t, kw, p);
    SuffixExtend(s, Wrap(kw), ReplaceFrom(t, kw, p + |kw|));
  }

  /** A suffix of the output after a copied character is a suffix of the output from it. */
  lemma SuffixAfterCopy(t: string, kw: string, p: nat, s: string)
    requires 0 < |kw| && p < |t| && !MatchesAt(t, p, kw)
    requires IsSuffix(s, ReplaceFrom(t, kw, p + 1))
    ensures IsSuffix(s, ReplaceFrom(t, kw, p))
  {
    ReplaceFromCopies(t, kw, p);
    SuffixExtend(s, [t[p]], ReplaceFrom(t, kw, p + 1));
  }

  lemma SuffixExtend(s: string, head: string, rest: string)
    requires IsSuffix(s, rest)
    ensures IsSuffix(s, head + rest)
  {
    assert (head + rest)[|head + rest| - |s|..] == rest[|rest| - |s|..];
  }

  /**
    No two whole-word matches of kw can overlap, in any text: kw starts with a
    word character, and wherever a match could restart inside a match (after a
    character that need not be a word character), the next keyword character
    is a literal different from the first one.
   */
  predicate NonSelfOverlapping(kw: string) {
    && 0 < |kw|
    && IsWordChar(kw[0])
    && forall d :: 1 <= d < |kw| ==> IsWordChar(kw[d - 1]) || (kw[d] != '.' && kw[d] != kw[0])
  }

  lemma NoOverlappingMatches(t: string, kw: string, i: nat, j: nat)
    requires NonSelfOverlapping(kw)
    requires MatchesAt(t, i, kw) && i < j < i + |kw|
    ensures !MatchesAt(t, j, kw)
  {
    var d := j - i;
    CharsMatchAt(t, i, kw, d - 1);
    CharsMatchAt(t, i, kw, d);

  }

  /** For a keyword whose matches cannot overlap, every whole-word match is wrapped by its pass. */
  lemma EveryMatchWrapped(t: string, kw: string, i: nat)
    requires NonSelfOverlapping(kw)
    requires MatchesAt(t, i, kw)
    ensures IsSuffix(Wrap(kw) + ReplaceFrom(t, kw, i + |kw|), ReplaceAll(t, kw))
  {
    forall q | 0 <= q < i && i < q + |kw|
      ensures !MatchesAt(t, q, kw)
    {
      if MatchesAt(t, q, kw) {
        NoOverlappingMatches(t, kw, q, i);
      }
    }
    MatchIsWrapped(t, kw, 0, i);
  }

  /** The keyword list of highlightKeywords, in its order. */
  const Keywords: seq<string> := [
    "React", "Next.js", "TypeScript", "Redux", "HTML5", "CSS3", "Astro",
    "React Native", "Expo", "Expo Go", "Node.js", "Express.js", "Python",
    "FastAPI", "NestJS", "Docker", "AWS", "MongoDB", "PostgreSQL", "Git",
    "LangGraph", "LLMs", "UX"
  ]

  predicate AllNonEmpty(kws: seq<string>) {
    forall k :: 0 <= k < |kws| ==> 0 < |kws[k]|
  }

  /** The passes for kws, in order, each over the previous result. */
  function ApplyPasses(kws: seq<string>, t: string): string
    requires AllNonEmpty(kws)
  {
    if kws == [] then t
    else ReplaceAll(ApplyPasses(kws[..|kws| - 1], t), kws[|kws| - 1])
  }

  /** The restart condition of NonSelfOverlapping, checked one position at a time from d on. */
  predicate NoRestartFrom(kw: string, d: nat)
    requires 1 <= d
    decreases |kw| - d
  {
    d >= |kw| || ((IsWordChar(kw[d - 1]) || (kw[d] != '.' && kw[d] != kw[0])) && NoRestartFrom(kw, d + 1))
  }

  lemma {:induction false} NoRestartFromSound(kw: string, d: nat)
    requires 0 < |kw| && 1 <= d
    requires NoRestartFrom(kw, d)
    ensures forall e :: d <= e < |kw| ==> IsWordChar(kw[e - 1]) || (kw[e] != '.' && kw[e] != kw[0])
    decreases |kw| - d
  {
    if d < |kw| {
      NoRestartFromSound(kw, d + 1);
    }
  }

  /** Every keyword of the list has matches that cannot overlap (and so is not empty). */
  lemma KeywordsNonSelfOverlapping()
    ensures forall k :: 0 <= k < |Keywords| ==> NonSelfOverlapping(Keywords[k])
    ensures AllNonEmpty(Keywords)
  {
    forall k | 0 <= k < |Keywords|
      ensures NonSelfOverlapping(Keywords[k])
    {
      var kw := Keywords[k];
      assert IsWordChar(kw[0]) && NoRestartFrom(kw, 1);
      NoRestartFromSound(kw, 1);
    }
  }

  /** What highlightKeywords returns for text. */
  function Highlighted(text: string): string {
    KeywordsNonSelfOverlapping();
    ApplyPasses(Keywords, text)
  }

  /** highlightKeywords: one replace pass per keyword, in list order, over the running result. */
  method HighlightKeywords(text: string) returns (result: string)
    ensures result == Highlighted(text)
  {
    KeywordsNonSelfOverlapping();
    result := text;
    for k := 0 to |Keywords|
      invariant result == ApplyPasses(Keywords[..k], text)
    {
      ApplyPassesStep(Keywords, k, text);
      result := ReplaceAll(result, Keywords[k]);
    }
    assert Keywords[..|Keywords|] == Keywords;
  }

  /** One more keyword of a list is one more pass over the passes for the keywords before it. */
  lemma ApplyPassesStep(kws: seq<string>, k: nat, t: string)
    requires AllNonEmpty(kws) && k < |kws|
    ensures AllNonEmpty(kws[..k]) && AllNonEmpty(kws[..k + 1])
    ensures ApplyPasses(kws[..k + 1], t) == ReplaceAll(ApplyPasses(kws[..k], t), kws[k])
  {
    assert kws[..k + 1][..k] == kws[..k];
  }

  /** The passes for a + b are the passes for a followed by the passes for b. */
  lemma {:induction false} ApplyPassesAppend(a: seq<string>, b: seq<string>, t: string)
    requires AllNonEmpty(a) && AllNonEmpty(b)
    ensures AllNonEmpty(a + b)
    ensures ApplyPasses(a + b, t) == ApplyPasses(b, ApplyPasses(a, t))
    decreases |b|
  {
    if b == [] {
      assert a + b == a;
    } else {
      ApplyPassesAppend(a, b[..|b| - 1], t);
      assert (a + b)[..|a + b| - 1] == a + b[..|b| - 1];
    }
  }

  /** The pass for the keyword at position i runs over the passes for the keywords before it, and the rest follow. */
  lemma ApplyPassesAround(kws: seq<string>, i: nat, t: string)
    requires AllNonEmpty(kws) && i < |kws|
    ensures AllNonEmpty(kws[..i]) && AllNonEmpty(kws[i + 1..])
    ensures ApplyPasses(kws, t) == ApplyPasses(kws[i + 1..], ReplaceAll(ApplyPasses(kws[..i], t), kws[i]))
  {
    ApplyPassesStep(kws, i, t);
    ApplyPassesAppend(kws[..i + 1], kws[i + 1..], t);
    assert kws[..i + 1] + kws[i + 1..] == kws;
  }

  /** The passes never shorten the text. */
  lemma {:induction false} ApplyPassesLength(kws: seq<string>, t: string)
    requires AllNonEmpty(kws)
    ensures |ApplyPasses(kws, t)| >= |t|
  {
    if kws != [] {
      var prev := ApplyPasses(kws[..|kws| - 1], t);
      ApplyPassesLength(kws[..|kws| - 1], t);
      ReplaceFromLength(prev, kws[|kws| - 1], 0);
    }
  }

  /** The passes return their input exactly when no keyword of kws has a whole-word match in it. */
  lemma {:induction false} ApplyPassesIdentity(kws: seq<string>, t: string)
    requires AllNonEmpty(kws)
    ensures ApplyPasses(kws, t) == t <==> forall k :: 0 <= k < |kws| ==> !HasMatchFrom(t, kws[k], 0)
  {
    if kws != [] {
      var init := kws[..|kws| - 1];
      var last := kws[|kws| - 1];
      var prev := ApplyPasses(init, t);
      ApplyPassesIdentity(init, t);
      ApplyPassesLength(init, t);
      ReplaceFromLength(prev, last, 0);
      ReplaceAllIdentity(prev, last);
      if ApplyPasses(kws, t) == t {
        assert |prev| == |t|;
        assert prev == t;
      }
      assert forall k :: 0 <= k < |init| ==> init[k] == kws[k];
    }
  }

  /** A text with no whole-word occurrence of any keyword is returned unchanged, and only such a text. */
  lemma HighlightedIdentity(text: string)
    ensures Highlighted(text) == text <==> forall k :: 0 <= k < |Keywords| ==> !HasMatchFrom(text, Keywords[k], 0)
  {
    KeywordsNonSelfOverlapping();
    ApplyPassesIdentity(Keywords, text);
  }

  /** A keyword that starts a longer one; the rest of the longer one starts with a literal non-word character. */
  predicate ExtendsBy(long: string, kw: string) {
    && 0 < |kw| < |long|
    && long[..|kw|] == kw
    && IsWordChar(kw[|kw| - 1])
    && long[|kw|] != '.'
    && !IsWordChar(long[|kw|])
  }

  /**
    List order: where a keyword kw starts a longer keyword (React and React
    Native, Expo and Expo Go), the pass for kw wraps kw inside every
    whole-word occurrence of the longer one, and the character after it is
    copied, so the occurrence is split.
   */
  lemma PrefixPassSplitsLonger(t: string, long: string, kw: string, i: nat)
    requires NonSelfOverlapping(kw) && ExtendsBy(long, kw)
    requires MatchesAt(t, i, long)
    ensures i + |kw| < |t| && t[i + |kw|] == long[|kw|]
    ensures IsSuffix(Wrap(kw) + ReplaceFrom(t, kw, i + |kw|), ReplaceAll(t, kw))
    ensures ReplaceFrom(t, kw, i + |kw|) == [t[i + |kw|]] + ReplaceFrom(t, kw, i + |kw| + 1)
  {
    PrefixOfLongerMatches(t, long, kw, i);
    EveryMatchWrapped(t, kw, i);
    ReplaceFromCopies(t, kw, i + |kw|);
  }

  /** Inside a whole-word occurrence of the longer keyword the shorter one matches, and does not match right after itself. */
  lemma PrefixOfLongerMatches(t: string, long: string, kw: string, i: nat)
    requires 0 < |kw| && IsWordChar(kw[0]) && ExtendsBy(long, kw)
    requires MatchesAt(t, i, long)
    ensures i + |kw| < |t| && t[i + |kw|] == long[|kw|]
    ensures MatchesAt(t, i, kw) && !MatchesAt(t, i + |kw|, kw)
  {
    CharsMatchAt(t, i, long, |kw|);
    CharsMatchAt(t, i, long, |kw| - 1);
    forall j | 0 <= j < |kw| ensures CharMatches(kw[j], t[i + j]) {
      CharsMatchAt(t, i, long, j);
      assert long[j] == kw[j];
    }
    CharsMatchFromChars(t, i, kw);
    assert long[|kw| - 1] == kw[|kw| - 1];
  }

  /** The converse of CharsMatchAt: matching every character is matching the keyword. */
  lemma {:induction false} CharsMatchFromChars(t: string, i: nat, kw: string)
    requires i + |kw| <= |t|
    requires forall j :: 0 <= j < |kw| ==> CharMatches(kw[j], t[i + j])
    ensures CharsMatch(t, i, kw)
    decreases |kw|
  {
    if 0 < |kw| {
      assert CharMatches(kw[0], t[i + 0]);
      forall j | 0 <= j < |kw| - 1 ensures CharMatches(kw[1..][j], t[i + 1 + j]) {
        assert CharMatches(kw[j + 1], t[i + (j + 1)]);
      }
      CharsMatchFromChars(t, i + 1, kw[1..]);
    }
  }

  /**
    And the later pass for the longer keyword cannot match at the wrapped
    keyword, whatever text precedes it: the wrapped keyword is followed by
    the closing tag, not by the rest of the longer keyword.
   */
  lemma NoLongerMatchAtWrapped(long: string, a: string, kw: string, u: string)
    requires ExtendsBy(long, kw) && long[|kw|] != '<'
    ensures !MatchesAt(a + Wrap(kw) + u, |a| + |"<strong>"|, long)
  {
    var w := a + Wrap(kw) + u;
    var s := |a| + |"<strong>"|;
    assert w[s + |kw|] == '<';
    if MatchesAt(w, s, long) {
      CharsMatchAt(w, s, long, |kw|);
    }
  }

  /**
    In the list, React comes before React Native and Expo before Expo Go, and
    both pairs are of the kind the two lemmas above are about.
   */
  lemma PrefixKeywordsComeFirst()
    ensures Keywords[0] == "React" && Keywords[7] == "React Native"
    ensures Keywords[8] == "Expo" && Keywords[9] == "Expo Go"
    ensures ExtendsBy(Keywords[7], Keywords[0]) && Keywords[7][|Keywords[0]|] != '<'
    ensures ExtendsBy(Keywords[9], Keywords[8]) && Keywords[9][|Keywords[8]|] != '<'
    ensures NonSelfOverlapping(Keywords[0]) && NonSelfOverlapping(Keywords[8])
  {
    KeywordsNonSelfOverlapping();
  }

  /** Whole words only: a keyword ending in a word character does not match where a word character follows. */
  lemma NoMatchBeforeWordChar(t: string, kw: string, i: nat)
    requires 0 < |kw| && IsWordChar(kw[|kw| - 1])
    requires i + |kw| < |t| && IsWordChar(t[i + |kw|])
    ensures !MatchesAt(t, i, kw)
  {
    if MatchesAt(t, i, kw) {
      CharsMatchAt(t, i, kw, |kw| - 1);
    }
  }

  /** Whole words only: a keyword starting with a word character does not match right after a word character. */
  lemma NoMatchAfterWordChar(t: string, kw: string, i: nat)
    requires 0 < |kw| && IsWordChar(kw[0])
    requires 0 < i <= |t| - |kw| && IsWordChar(t[i - 1])
    ensures !MatchesAt(t, i, kw)
  {
  }

  /** Whole words only, and case-sensitive: a word containing a keyword, or the keyword in lower case, is left alone. */
  lemma WholeWordExamples()
    ensures ReplaceAll("Reactive", "React") == "Reactive"
    ensures ReplaceAll("GitHub", "Git") == "GitHub"
    ensures ReplaceAll("react", "React") == "react"
  {
    assert !HasMatchFrom("Reactive", "React", 0) by {
      var t := "Reactive";
      assert !IsBoundary(t, 5) && !IsBoundary(t, 1) && !IsBoundary(t, 2) && !IsBoundary(t, 3);
    }
    ReplaceAllIdentity("Reactive", "React");
    assert !HasMatchFrom("GitHub", "Git", 0) by {
      var t := "GitHub";
      assert !IsBoundary(t, 3) && !IsBoundary(t, 1) && !IsBoundary(t, 2);
    }
    ReplaceAllIdentity("GitHub", "Git");
    assert !HasMatchFrom("react", "React", 0) by {
      assert "react"[0] != 'R';
    }
    ReplaceAllIdentity("react", "React");
  }

  /** The React pass splits "React Native". */
  lemma ReactNativeExample()
    ensures ReplaceAll("React Native", "React") == Wrap("React") + " Native"
  {
    var t, kw := "React Native", "React";
    assert MatchesAt(t, 0, kw);
    ReplaceFromWraps(t, kw, 0);
    assert !HasMatchFrom(t, kw, 5) by {
      assert t[5] != 'R' && t[6] != 'R' && !IsBoundary(t, 7);
    }
    ReplaceFromNoMatch(t, kw, 5);
    assert t[5..] == " Native";
  }

  /** The Expo pass splits "Expo Go". */
  lemma ExpoGoExample()
    ensures ReplaceAll("Expo Go", "Expo") == Wrap("Expo") + " Go"
  {
    var t, kw := "Expo Go", "Expo";
    assert MatchesAt(t, 0, kw);
    ReplaceFromWraps(t, kw, 0);
    ReplaceFromNoMatch(t, kw, 4);
    assert t[4..] == " Go";
  }

  /** The unescaped dot matches any character: "Next-js" is rewritten to the keyword's own spelling. */
  lemma WildcardExample()
    ensures ReplaceAll("Next-js", "Next.js") == Wrap("Next.js")
  {
    var t, kw := "Next-js", "Next.js";
    assert MatchesAt(t, 0, kw);
    ReplaceFromWraps(t, kw, 0);
  }

  /** The first characters of the keywords. */
  const Initials: set<char> := {'A', 'C', 'D', 'E', 'F', 'G', 'H', 'L', 'M', 'N', 'P', 'R', 'T', 'U'}

  /**
    A keyword has no match at or after p when its first character is a
    literal outside an alphabet that holds every character of t from p on,
    except at two positions a and b where the keyword's characters at offsets
    ja and jb differ from the text's.
   */
  lemma NoMatchBesides(t: string, kw: string, p: nat, a: nat, ja: nat, b: nat, jb: nat, alphabet: set<char>)
    requires 0 < |kw| && kw[0] != '.' && kw[0] !in alphabet
    requires forall q :: p <= q < |t| && q != a && q != b ==> t[q] in alphabet
    requires ja < |kw| && a + ja < |t| && kw[ja] != '.' && t[a + ja] != kw[ja]
    requires jb < |kw| && b + jb < |t| && kw[jb] != '.' && t[b + jb] != kw[jb]
    ensures !HasMatchFrom(t, kw, p)
  {
    forall q | p <= q <= |t| ensures !MatchesAt(t, q, kw) {
      if q == a && MatchesAt(t, q, kw) {
        CharsMatchAt(t, a, kw, ja);
      } else if q == b && MatchesAt(t, q, kw) {
        CharsMatchAt(t, b, kw, jb);
      }
    }
  }

  /**
    A pass whose keyword matches t at i, and not at b, the only other place
    past the match where t leaves the alphabet, wraps that one match and
    copies the rest.
   */
  lemma ReplaceOnlyMatch(t: string, kw: string, i: nat, b: nat, alphabet: set<char>)
    requires 0 < |kw| && kw[0] != '.' && kw[0] !in alphabet
    requires i < b && MatchesAt(t, i, kw) && !MatchesAt(t, b, kw)
    requires forall q :: 0 <= q < |t| && q != i && q != b ==> t[q] in alphabet
    ensures ReplaceAll(t, kw) == t[..i] + Wrap(kw) + t[i + |kw|..]
  {
    forall q | 0 <= q < i ensures !MatchesAt(t, q, kw) {
      assert t[q] in alphabet;
    }
    ReplaceFromFirstMatch(t, kw, 0, i);
    forall q | i + |kw| <= q <= |t| ensures !MatchesAt(t, q, kw) {
      if q != b && q < |t| {
        assert t[q] in alphabet;
      }
    }
    ReplaceFromNoMatch(t, kw, i + |kw|);
  }

  /**
    When no keyword before the one at i matches t, its pass turns t into r,
    and no keyword after it matches r, highlighting t gives r.
   */
  lemma HighlightedByOnePass(t: string, i: nat, r: string)
    requires i < |Keywords| && 0 < |Keywords[i]|
    requires forall k :: 0 <= k < i ==> !HasMatchFrom(t, Keywords[k], 0)
    requires ReplaceAll(t, Keywords[i]) == r
    requires forall k :: i < k < |Keywords| ==> !HasMatchFrom(r, Keywords[k], 0)
    ensures Highlighted(t) == r
  {
    KeywordsNonSelfOverlapping();
    ApplyPassesAround(Keywords, i, t);
    ApplyPassesIdentity(Keywords[..i], t);
    ApplyPassesIdentity(Keywords[i + 1..], r);
  }

  /**
    In a text shaped like the React pass's output over "React Native" (only
    the R of React at 8 and the N of Native at 23 are keyword initials) no
    keyword after React matches.
   */
  lemma NoLaterKeywordInReactNative(t: string, alphabet: set<char>)
    requires alphabet !! Initials
    requires forall q :: 0 <= q < |t| && q != 8 && q != 23 ==> t[q] in alphabet
    requires |t| == 29 && t[8] == 'R' && t[10] == 'a' && t[13] == '<' && t[23] == 'N' && t[24] == 'a'
    ensures forall k :: 1 <= k < |Keywords| ==> !HasMatchFrom(t, Keywords[k], 0)
  {
    assert !HasMatchFrom(t, "Next.js", 0) by { NoMatchBesides(t, "Next.js", 0, 8, 0, 23, 1, alphabet); }
    assert !HasMatchFrom(t, "TypeScript", 0) by { NoMatchBesides(t, "TypeScript", 0, 8, 0, 23, 0, alphabet); }
    assert !HasMatchFrom(t, "Redux", 0) by { NoMatchBesides(t, "Redux", 0, 8, 2, 23, 0, alphabet); }
    assert !HasMatchFrom(t, "HTML5", 0) by { NoMatchBesides(t, "HTML5", 0, 8, 0, 23, 0, alphabet); }
    assert !HasMatchFrom(t, "CSS3", 0) by { NoMatchBesides(t, "CSS3", 0, 8, 0, 23, 0, alphabet); }
    assert !HasMatchFrom(t, "Astro", 0) by { NoMatchBesides(t, "Astro", 0, 8, 0, 23, 0, alphabet); }
    assert !HasMatchFrom(t, "React Native", 0) by { NoMatchBesides(t, "React Native", 0, 8, 5, 23, 0, alphabet); }
    assert !HasMatchFrom(t, "Expo", 0) by { NoMatchBesides(t, "Expo", 0, 8, 0, 23, 0, alphabet); }
    assert !HasMatchFrom(t, "Expo Go", 0) by { NoMatchBesides(t, "Expo Go", 0, 8, 0, 23, 0, alphabet); }
    assert !HasMatchFrom(t, "Node.js", 0) by { NoMatchBesides(t, "Node.js", 0, 8, 0, 23, 1, alphabet); }
    assert !HasMatchFrom(t, "Express.js", 0) by { NoMatchBesides(t, "Express.js", 0, 8, 0, 23, 0, alphabet); }
    assert !HasMatchFrom(t, "Python", 0) by { NoMatchBesides(t, "Python", 0, 8, 0, 23, 0, alphabet); }
    assert !HasMatchFrom(t, "FastAPI", 0) by { NoMatchBesides(t, "FastAPI", 0, 8, 0, 23, 0, alphabet); }
    assert !HasMatchFrom(t, "NestJS", 0) by { NoMatchBesides(t, "NestJS", 0, 8, 0, 23, 1, alphabet); }
    assert !HasMatchFrom(t, "Docker", 0) by { NoMatchBesides(t, "Docker", 0, 8, 0, 23, 0, alphabet); }
    assert !HasMatchFrom(t, "AWS", 0) by { NoMatchBesides(t, "AWS", 0, 8, 0, 23, 0, alphabet); }
    assert !HasMatchFrom(t, "MongoDB", 0) by { NoMatchBesides(t, "MongoDB", 0, 8, 0, 23, 0, alphabet); }
    assert !HasMatchFrom(t, "PostgreSQL", 0) by { NoMatchBesides(t, "PostgreSQL", 0, 8, 0, 23, 0, alphabet); }
    assert !HasMatchFrom(t, "Git", 0) by { NoMatchBesides(t, "Git", 0, 8, 0, 23, 0, alphabet); }
    assert !HasMatchFrom(t, "LangGraph", 0) by { NoMatchBesides(t, "LangGraph", 0, 8, 0, 23, 0, alphabet); }
    assert !HasMatchFrom(t, "LLMs", 0) by { NoMatchBesides(t, "LLMs", 0, 8, 0, 23, 0, alphabet); }
    assert !HasMatchFrom(t, "UX", 0) by { NoMatchBesides(t, "UX", 0, 8, 0, 23, 0, alphabet); }
  }

  /** highlightKeywords("React Native"): React is emphasised and React Native, split by it, is not. */
  lemma HighlightReactNative()
    ensures Highlighted("React Native") == Wrap("React") + " Native"
  {
    var t := Wrap("React") + " Native";
    var alphabet := {'<', '>', '/', 'a', 'c', 'e', 'g', 'i', 'n', 'o', 'r', 's', 't', 'v', ' '};
    assert forall q :: 0 <= q < |t| && q != 8 && q != 23 ==> t[q] in alphabet;
    NoLaterKeywordInReactNative(t, alphabet);
    ReactNativeExample();
    HighlightedByOnePass("React Native", 0, t);
  }

  /** In a text whose only keyword initials are an E at 0 and a G at 5, no keyword before Expo matches. */
  lemma NoEarlierKeywordInExpoGo(t: string, alphabet: set<char>)
    requires alphabet !! Initials
    requires forall q :: 0 <= q < |t| && q != 0 && q != 5 ==> t[q] in alphabet
    requires |t| == 7 && t[0] == 'E' && t[5] == 'G'
    ensures forall k :: 0 <= k < 8 ==> !HasMatchFrom(t, Keywords[k], 0)
  {
    assert !HasMatchFrom(t, "React", 0) by { NoMatchBesides(t, "React", 0, 0, 0, 5, 0, alphabet); }
    assert !HasMatchFrom(t, "Next.js", 0) by { NoMatchBesides(t, "Next.js", 0, 0, 0, 5, 0, alphabet); }
    assert !HasMatchFrom(t, "TypeScript", 0) by { NoMatchBesides(t, "TypeScript", 0, 0, 0, 5, 0, alphabet); }
    assert !HasMatchFrom(t, "Redux", 0) by { NoMatchBesides(t, "Redux", 0, 0, 0, 5, 0, alphabet); }
    assert !HasMatchFrom(t, "HTML5", 0) by { NoMatchBesides(t, "HTML5", 0, 0, 0, 5, 0, alphabet); }
    assert !HasMatchFrom(t, "CSS3", 0) by { NoMatchBesides(t, "CSS3", 0, 0, 0, 5, 0, alphabet); }
    assert !HasMatchFrom(t, "Astro", 0) by { NoMatchBesides(t, "Astro", 0, 0, 0, 5, 0, alphabet); }
    assert !HasMatchFrom(t, "React Native", 0) by { NoMatchBesides(t, "React Native", 0, 0, 0, 5, 0, alphabet); }
  }

  /**
    In a text shaped like the Expo pass's output over "Expo Go" (only the E
    of Expo at 8 and the G of Go at 22 are keyword initials) no keyword after
    Expo matches.
   */
  lemma NoLaterKeywordInExpoGo(t: string, alphabet: set<char>)
    requires alphabet !! Initials
    requires forall q :: 0 <= q < |t| && q != 8 && q != 22 ==> t[q] in alphabet
    requires |t| == 24 && t[8] == 'E' && t[11] == 'o' && t[12] == '<' && t[22] == 'G' && t[23] == 'o'
    ensures forall k :: 9 <= k < |Keywords| ==> !HasMatchFrom(t, Keywords[k], 0)
  {
    assert !HasMatchFrom(t, "Expo Go", 0) by { NoMatchBesides(t, "Expo Go", 0, 8, 4, 22, 0, alphabet); }
    assert !HasMatchFrom(t, "Node.js", 0) by { NoMatchBesides(t, "Node.js", 0, 8, 0, 22, 0, alphabet); }
    assert !HasMatchFrom(t, "Express.js", 0) by { NoMatchBesides(t, "Express.js", 0, 8, 3, 22, 0, alphabet); }
    assert !HasMatchFrom(t, "Python", 0) by { NoMatchBesides(t, "Python", 0, 8, 0, 22, 0, alphabet); }
    assert !HasMatchFrom(t, "FastAPI", 0) by { NoMatchBesides(t, "FastAPI", 0, 8, 0, 22, 0, alphabet); }
    assert !HasMatchFrom(t, "NestJS", 0) by { NoMatchBesides(t, "NestJS", 0, 8, 0, 22, 0, alphabet); }
    assert !HasMatchFrom(t, "Docker", 0) by { NoMatchBesides(t, "Docker", 0, 8, 0, 22, 0, alphabet); }
    assert !HasMatchFrom(t, "AWS", 0) by { NoMatchBesides(t, "AWS", 0, 8, 0, 22, 0, alphabet); }
    assert !HasMatchFrom(t, "MongoDB", 0) by { NoMatchBesides(t, "MongoDB", 0, 8, 0, 22, 0, alphabet); }
    assert !HasMatchFrom(t, "PostgreSQL", 0) by { NoMatchBesides(t, "PostgreSQL", 0, 8, 0, 22, 0, alphabet); }
    assert !HasMatchFrom(t, "Git", 0) by { NoMatchBesides(t, "Git", 0, 8, 0, 22, 1, alphabet); }
    assert !HasMatchFrom(t, "LangGraph", 0) by { NoMatchBesides(t, "LangGraph", 0, 8, 0, 22, 0, alphabet); }
    assert !HasMatchFrom(t, "LLMs", 0) by { NoMatchBesides(t, "LLMs", 0, 8, 0, 22, 0, alphabet); }
    assert !HasMatchFrom(t, "UX", 0) by { NoMatchBesides(t, "UX", 0, 8, 0, 22, 0, alphabet); }
  }

  /** No keyword before Expo matches "Expo Go". */
  lemma ExpoGoNoEarlierMatch()
    ensures forall k :: 0 <= k < 8 ==> !HasMatchFrom("Expo Go", Keywords[k], 0)
  {
    var letters := {'x', 'p', 'o', ' '};
    assert forall q :: 0 <= q < |"Expo Go"| && q != 0 && q != 5 ==> "Expo Go"[q] in letters;
    NoEarlierKeywordInExpoGo("Expo Go", letters);
  }

  /** No keyword after Expo matches the Expo pass's output over "Expo Go". */
  lemma ExpoGoNoLaterMatch()
    ensures forall k :: 9 <= k < |Keywords| ==> !HasMatchFrom(Wrap("Expo") + " Go", Keywords[k], 0)
  {
    var t := Wrap("Expo") + " Go";
    var alphabet := {'<', '>', '/', 'g', 'n', 'o', 'p', 'r', 's', 't', 'x', ' '};
    assert forall q :: 0 <= q < |t| && q != 8 && q != 22 ==> t[q] in alphabet;
    NoLaterKeywordInExpoGo(t, alphabet);
  }

  /** highlightKeywords("Expo Go"): Expo is emphasised and Expo Go, split by it, is not. */
  lemma HighlightExpoGo()
    ensures Highlighted("Expo Go") == Wrap("Expo") + " Go"
  {
    ExpoGoNoEarlierMatch();
    ExpoGoNoLaterMatch();
    assert Keywords[8] == "Expo";
    ExpoGoExample();
    HighlightedByOnePass("Expo Go", 8, Wrap("Expo") + " Go");
  }

  /** The sentence used below: React at 11 is a whole word, the React of Reactive at 21 is not. */
  const Sentence := SentenceHead + "React" + SentenceTail
  const SentenceHead := "Built with "
  const SentenceTail := " and Reactive patterns"

  lemma SentenceAlphabet()
    ensures forall q :: 0 <= q < |Sentence| && q != 11 && q != 21 ==>
      Sentence[q] in {'B', 'u', 'i', 'l', 't', 'w', 'h', 'e', 'a', 'c', 'n', 'd', 'v', 'p', 'r', 's', ' '}
  {
  }

  /** The keyword's own text, read as a regular expression, matches it. */
  lemma CharsMatchOwnText(t: string, i: nat, kw: string)
    requires i + |kw| <= |t| && t[i..i + |kw|] == kw
    ensures CharsMatch(t, i, kw)
  {
    forall j | 0 <= j < |kw| ensures CharMatches(kw[j], t[i + j]) {
      assert t[i..i + |kw|][j] == t[i + j];
    }
    CharsMatchFromChars(t, i, kw);
  }

  /** A keyword that starts and ends with word characters matches where it stands between non-word neighbours. */
  lemma MatchBetween(a: string, kw: string, b: string)
    requires 0 < |kw| && IsWordChar(kw[0]) && IsWordChar(kw[|kw| - 1])
    requires a == [] || !IsWordChar(a[|a| - 1])
    requires b == [] || !IsWordChar(b[0])
    ensures MatchesAt(a + kw + b, |a|, kw)
  {
    var t := a + kw + b;
    assert t[|a|..|a| + |kw|] == kw;
    CharsMatchOwnText(t, |a|, kw);
    assert t[|a|] == kw[0] && t[|a| + |kw| - 1] == kw[|kw| - 1];
    if a != [] {
      assert t[|a| - 1] == a[|a| - 1];
    }
    if b != [] {
      assert t[|a| + |kw|] == b[0];
    }
  }

  lemma SentenceMatchesReact()
    ensures MatchesAt(Sentence, 11, "React")
  {
    MatchBetween(SentenceHead, "React", SentenceTail);
  }

  lemma SentenceReactiveUnmatched()
    ensures !MatchesAt(Sentence, 21, "React")
  {
    assert !IsBoundary(Sentence, 26);
  }

  lemma SentenceSlices()
    ensures Sentence[..11] == SentenceHead && Sentence[16..] == SentenceTail
  {
    assert |SentenceHead| == 11;
  }

  /** The React pass over the sentence wraps the word React and leaves Reactive alone. */
  lemma SentenceReactPass()
    ensures ReplaceAll(Sentence, "React") == SentenceHead + Wrap("React") + SentenceTail
  {
    SentenceAlphabet();
    SentenceMatchesReact();
    SentenceReactiveUnmatched();
    ReplaceOnlyMatch(Sentence, "React", 11, 21, {'B', 'u', 'i', 'l', 't', 'w', 'h', 'e', 'a', 'c', 'n', 'd', 'v', 'p', 'r', 's', ' '});
    SentenceSlices();
  }

  /**
    In a text shaped like the React pass's output over the sentence (only the
    R of React at 19 and the R of Reactive at 38 are keyword initials) no
    keyword after React matches.
   */
  lemma NoLaterKeywordInSentence(t: string, alphabet: set<char>)
    requires alphabet !! Initials
    requires forall q :: 0 <= q < |t| && q != 19 && q != 38 ==> t[q] in alphabet
    requires |t| == 55 && t[19] == 'R' && t[21] == 'a' && t[24] == '<' && t[38] == 'R' && t[40] == 'a' && t[43] == 'i'
    ensures forall k :: 1 <= k < |Keywords| ==> !HasMatchFrom(t, Keywords[k], 0)
  {
    assert !HasMatchFrom(t, "Next.js", 0) by { NoMatchBesides(t, "Next.js", 0, 19, 0, 38, 0, alphabet); }
    assert !HasMatchFrom(t, "TypeScript", 0) by { NoMatchBesides(t, "TypeScript", 0, 19, 0, 38, 0, alphabet); }
    assert !HasMatchFrom(t, "Redux", 0) by { NoMatchBesides(t, "Redux", 0, 19, 2, 38, 2, alphabet); }
    assert !HasMatchFrom(t, "HTML5", 0) by { NoMatchBesides(t, "HTML5", 0, 19, 0, 38, 0, alphabet); }
    assert !HasMatchFrom(t, "CSS3", 0) by { NoMatchBesides(t, "CSS3", 0, 19, 0, 38, 0, alphabet); }
    assert !HasMatchFrom(t, "Astro", 0) by { NoMatchBesides(t, "Astro", 0, 19, 0, 38, 0, alphabet); }
    assert !HasMatchFrom(t, "React Native", 0) by { NoMatchBesides(t, "React Native", 0, 19, 5, 38, 5, alphabet); }
    assert !HasMatchFrom(t, "Expo", 0) by { NoMatchBesides(t, "Expo", 0, 19, 0, 38, 0, alphabet); }
    assert !HasMatchFrom(t, "Expo Go", 0) by { NoMatchBesides(t, "Expo Go", 0, 19, 0, 38, 0, alphabet); }
    assert !HasMatchFrom(t, "Node.js", 0) by { NoMatchBesides(t, "Node.js", 0, 19, 0, 38, 0, alphabet); }
    assert !HasMatchFrom(t, "Express.js", 0) by { NoMatchBesides(t, "Express.js", 0, 19, 0, 38, 0, alphabet); }
    assert !HasMatchFrom(t, "Python", 0) by { NoMatchBesides(t, "Python", 0, 19, 0, 38, 0, alphabet); }
    assert !HasMatchFrom(t, "FastAPI", 0) by { NoMatchBesides(t, "FastAPI", 0, 19, 0, 38, 0, alphabet); }
    assert !HasMatchFrom(t, "NestJS", 0) by { NoMatchBesides(t, "NestJS", 0, 19, 0, 38, 0, alphabet); }
    assert !HasMatchFrom(t, "Docker", 0) by { NoMatchBesides(t, "Docker", 0, 19, 0, 38, 0, alphabet); }
    assert !HasMatchFrom(t, "AWS", 0) by { NoMatchBesides(t, "AWS", 0, 19, 0, 38, 0, alphabet); }
    assert !HasMatchFrom(t, "MongoDB", 0) by { NoMatchBesides(t, "MongoDB", 0, 19, 0, 38, 0, alphabet); }
    assert !HasMatchFrom(t, "PostgreSQL", 0) by { NoMatchBesides(t, "PostgreSQL", 0, 19, 0, 38, 0, alphabet); }
    assert !HasMatchFrom(t, "Git", 0) by { NoMatchBesides(t, "Git", 0, 19, 0, 38, 0, alphabet); }
    assert !HasMatchFrom(t, "LangGraph", 0) by { NoMatchBesides(t, "LangGraph", 0, 19, 0, 38, 0, alphabet); }
    assert !HasMatchFrom(t, "LLMs", 0) by { NoMatchBesides(t, "LLMs", 0, 19, 0, 38, 0, alphabet); }
    assert !HasMatchFrom(t, "UX", 0) by { NoMatchBesides(t, "UX", 0, 19, 0, 38, 0, alphabet); }
  }

  /** The letters of the React pass's output over the sentence, but for its two R's. */
  const SentencePassLetters: set<char> := {'B', 'u', 'i', 'l', 't', 'w', 'h', 'e', 'a', 'c', 'n', 'd', 'v', 'p', 'r', 's', 'o', 'g', '<', '>', '/', ' '}

  lemma SentencePassLettersNotInitials()
    ensures SentencePassLetters !! Initials
  {
  }

  lemma SentencePassAlphabet()
    ensures forall q :: 0 <= q < |SentenceHead + Wrap("React") + SentenceTail| && q != 19 && q != 38 ==>
      (SentenceHead + Wrap("React") + SentenceTail)[q] in SentencePassLetters
  {
  }

  lemma SentencePassLandmarks()
    ensures var t := SentenceHead + Wrap("React") + SentenceTail;
      |t| == 55 && t[19] == 'R' && t[21] == 'a' && t[24] == '<' && t[38] == 'R' && t[40] == 'a' && t[43] == 'i'
  {
  }

  /** No keyword after React matches the React pass's output over the sentence. */
  lemma SentenceOnlyReactMatches()
    ensures forall k :: 1 <= k < |Keywords| ==>
      !HasMatchFrom(SentenceHead + Wrap("React") + SentenceTail, Keywords[k], 0)
  {
    SentencePassLettersNotInitials();
    SentencePassAlphabet();
    SentencePassLandmarks();
    NoLaterKeywordInSentence(SentenceHead + Wrap("React") + SentenceTail, SentencePassLetters);
  }

  /** highlightKeywords on a sentence with React and Reactive: only the whole word is emphasised. */
  lemma HighlightSentence()
    ensures Highlighted(Sentence) == SentenceHead + Wrap("React") + SentenceTail
  {
    SentenceOnlyReactMatches();
    SentenceReactPass();
    HighlightedByOnePass(Sentence, 0, SentenceHead + Wrap("React") + SentenceTail);
  }

  // ---------------------------------------------------------------------------
  // The summary paragraphs: `summary.split('\n\n')`.

  /** sep occurs in s at position i. */
  predicate OccursAt(s: string, i: nat, sep: string) {
    i + |sep| <= |s| && s[i..i + |sep|] == sep
  }

  /** sep occurs nowhere in s. */
  predicate Free(s: string, sep: string) {
    forall q :: 0 <= q <= |s| ==> !OccursAt(s, q, sep)
  }

  /**
    String.prototype.split with a non-empty string separator, resumed with
    the current piece starting at `start` and the search at i: the leftmost
    occurrence ends the piece and the search resumes after it.
   */
  function SplitFrom(s: string, sep: string, start: nat, i: nat): seq<string>
    requires 0 < |sep| && start <= i <= |s|
    decreases |s| - i
  {
    if |s| < i + |sep| then [s[start..]]
    else if s[i..i + |sep|] == sep then [s[start..i]] + SplitFrom(s, sep, i + |sep|, i + |sep|)
    else SplitFrom(s, sep, start, i + 1)
  }

  function Split(s: string, sep: string): seq<string>
    requires 0 < |sep|
  {
    SplitFrom(s, sep, 0, 0)
  }

  /** The pieces with sep between consecutive ones. */
  function Join(parts: seq<string>, sep: string): string {
    if |parts| == 0 then ""
    else if |parts| == 1 then parts[0]
    else parts[0] + sep + Join(parts[1..], sep)
  }

  /** The summed length of the pieces. */
  function TotalLength(parts: seq<string>): nat {
    if parts == [] then 0 else |parts[0]| + TotalLength(parts[1..])
  }

  /** parts are a split of s at sep: at least one piece, joined they give s, none holds sep. */
  predicate SplitsInto(parts: seq<string>, s: string, sep: string) {
    && 0 < |parts|
    && Join(parts, sep) == s
    && (forall k :: 0 <= k < |parts| ==> Free(parts[k], sep))
  }

  lemma {:induction false} SplitFromProperties(s: string, sep: string, start: nat, i: nat)
    requires 0 < |sep| && start <= i <= |s|
    requires forall q :: start <= q < i ==> !OccursAt(s, q, sep)
    ensures SplitsInto(SplitFrom(s, sep, start, i), s[start..], sep)
    decreases |s| - i
  {
    if |s| < i + |sep| {
      assert s[start..|s|] == s[start..];
      PieceFree(s, sep, start, |s|);
    } else if s[i..i + |sep|] == sep {
      PieceFree(s, sep, start, i);
      SplitFromProperties(s, sep, i + |sep|, i + |sep|);
      SplitAtSeparator(s, sep, start, i, SplitFrom(s, sep, i + |sep|, i + |sep|));
    } else {
      assert !OccursAt(s, i, sep);
      SplitFromProperties(s, sep, start, i + 1);
    }
  }

  /** A separator-free piece, the separator and a split of the rest make a split. */
  lemma SplitAtSeparator(s: string, sep: string, start: nat, i: nat, rest: seq<string>)
    requires start <= i && i + |sep| <= |s| && s[i..i + |sep|] == sep
    requires Free(s[start..i], sep)
    requires SplitsInto(rest, s[i + |sep|..], sep)
    ensures SplitsInto([s[start..i]] + rest, s[start..], sep)
  {
    var parts := [s[start..i]] + rest;
    assert parts[1..] == rest;
    assert s[start..] == s[start..i] + sep + s[i + |sep|..];
  }

  /** A piece ended before the first occurrence of sep at or after its start holds no sep. */
  lemma PieceFree(s: string, sep: string, start: nat, i: nat)
    requires 0 < |sep| && start <= i <= |s|
    requires forall q :: start <= q && q + |sep| <= i ==> !OccursAt(s, q, sep)
    ensures Free(s[start..i], sep)
  {
    var piece := s[start..i];
    forall q | 0 <= q <= |piece|
      ensures OccursAt(piece, q, sep) ==> OccursAt(s, start + q, sep)
    {
      if q + |sep| <= |piece| {
        SliceOfSlice(s, start, i, q, q + |sep|);
      }
    }
  }

  lemma SliceOfSlice(s: string, a: nat, b: nat, c: nat, d: nat)
    requires a <= b <= |s| && c <= d <= b - a
    ensures s[a..b][c..d] == s[a + c..a + d]
  {
    var l, r := s[a..b][c..d], s[a + c..a + d];
    assert |l| == |r|;
    forall k | 0 <= k < |l| ensures l[k] == r[k] {
      assert l[k] == s[a..b][c + k] == s[a + c + k];
    }
  }

  lemma {:induction false} JoinLength(parts: seq<string>, sep: string)
    requires 0 < |parts|
    ensures |Join(parts, sep)| == TotalLength(parts) + |sep| * (|parts| - 1)
  {
    if |parts| > 1 {
      JoinLength(parts[1..], sep);
    }
  }

  /**
    The number of occurrences of sep in s from position i on, counted left
    to right without overlap: after each one the count resumes past its end.
   */
  function SepCount(s: string, sep: string, i: nat): nat
    requires 0 < |sep| && i <= |s|
    decreases |s| - i
  {
    if |s| < i + |sep| then 0
    else if OccursAt(s, i, sep) then 1 + SepCount(s, sep, i + |sep|)
    else SepCount(s, sep, i + 1)
  }

  /** Split yields one piece more than there are non-overlapping occurrences of the separator. */
  lemma {:induction false} SplitFromCount(s: string, sep: string, start: nat, i: nat)
    requires 0 < |sep| && start <= i <= |s|
    ensures |SplitFrom(s, sep, start, i)| == SepCount(s, sep, i) + 1
    decreases |s| - i
  {
    if |s| < i + |sep| {
    } else if s[i..i + |sep|] == sep {
      SplitFromCount(s, sep, i + |sep|, i + |sep|);
    } else {
      SplitFromCount(s, sep, start, i + 1);
    }
  }

  /**
    Position i of s[a..b] is a word boundary exactly when position a + i of
    s is, provided no word character sits just outside the slice.
   */
  lemma BoundaryInIsolatedSlice(s: string, a: nat, b: nat, i: nat)
    requires a <= b <= |s| && i <= b - a
    requires a == 0 || !IsWordChar(s[a - 1])
    requires b == |s| || !IsWordChar(s[b])
    ensures IsBoundary(s[a..b], i) == IsBoundary(s, a + i)
  {
    if 0 < i {
      assert s[a..b][i - 1] == s[a + i - 1];
    }
    if i < b - a {
      assert s[a..b][i] == s[a + i];
    }
  }

  /** A match of \bkw\b inside such an isolated slice is a match in the whole text. */
  lemma MatchInIsolatedSlice(s: string, a: nat, b: nat, q: nat, kw: string)
    requires a <= b <= |s|
    requires a == 0 || !IsWordChar(s[a - 1])
    requires b == |s| || !IsWordChar(s[b])
    requires MatchesAt(s[a..b], q, kw)
    ensures MatchesAt(s, a + q, kw)
  {
    var u := s[a..b];
    BoundaryInIsolatedSlice(s, a, b, q);
    BoundaryInIsolatedSlice(s, a, b, q + |kw|);
    forall j | 0 <= j < |kw| ensures CharMatches(kw[j], s[a + q + j]) {
      CharsMatchAt(u, q, kw, j);
      assert u[q + j] == s[a + q + j];
    }
    CharsMatchFromChars(s, a + q, kw);
  }

  lemma PieceMatchInText(s: string, a: nat, b: nat, kw: string)
    requires a <= b <= |s|
    requires a == 0 || !IsWordChar(s[a - 1])
    requires b == |s| || !IsWordChar(s[b])
    ensures HasMatchFrom(s[a..b], kw, 0) ==> HasMatchFrom(s, kw, 0)
  {
    if HasMatchFrom(s[a..b], kw, 0) {
      var q :| 0 <= q <= b - a && MatchesAt(s[a..b], q, kw);
      MatchInIsolatedSlice(s, a, b, q, kw);
    }
  }

  /**
    When the separator begins and ends with non-word characters, a match of
    \bkw\b in any piece of the split is a match in the text.
   */
  lemma {:induction false} SplitFromMatchInText(s: string, sep: string, start: nat, i: nat, kw: string)
    requires 0 < |sep| && start <= i <= |s|
    requires !IsWordChar(sep[0]) && !IsWordChar(sep[|sep| - 1])
    requires start == 0 || !IsWordChar(s[start - 1])
    ensures forall k :: 0 <= k < |SplitFrom(s, sep, start, i)| ==>
      HasMatchFrom(SplitFrom(s, sep, start, i)[k], kw, 0) ==> HasMatchFrom(s, kw, 0)
    decreases |s| - i
  {
    if |s| < i + |sep| {
      assert s[start..|s|] == s[start..];
      PieceMatchInText(s, start, |s|, kw);
    } else if s[i..i + |sep|] == sep {
      assert s[i] == sep[0] && s[i + |sep| - 1] == sep[|sep| - 1];
      PieceMatchInText(s, start, i, kw);
      SplitFromMatchInText(s, sep, i + |sep|, i + |sep|, kw);
    } else {
      SplitFromMatchInText(s, sep, start, i + 1, kw);
    }
  }

  const ParagraphSeparator := "\n\n"

  /** The summary's paragraphs. */
  function Paragraphs(summary: string): seq<string> {
    Split(summary, ParagraphSeparator)
  }

  /**
    Joining the paragraphs with the separator gives the summary back, no
    paragraph holds the separator, one separator was removed between each
    two consecutive paragraphs, and there is one paragraph more than there
    are non-overlapping separators in the summary.
   */
  lemma ParagraphsProperties(summary: string)
    ensures 0 < |Paragraphs(summary)|
    ensures Join(Paragraphs(summary), ParagraphSeparator) == summary
    ensures forall k :: 0 <= k < |Paragraphs(summary)| ==> Free(Paragraphs(summary)[k], ParagraphSeparator)
    ensures |summary| == TotalLength(Paragraphs(summary)) + 2 * (|Paragraphs(summary)| - 1)
    ensures |Paragraphs(summary)| == SepCount(summary, ParagraphSeparator, 0) + 1
  {
    SplitFromProperties(summary, ParagraphSeparator, 0, 0);
    SplitFromCount(summary, ParagraphSeparator, 0, 0);
    JoinLength(Paragraphs(summary), ParagraphSeparator);
  }

  /** The emphasised paragraph or bullet texts, one per input text and in input order. */
  function HighlightEach(texts: seq<string>): (r: seq<string>)
    ensures |r| == |texts|
    ensures forall k :: 0 <= k < |texts| ==> r[k] == Highlighted(texts[k])
  {
    seq(|texts|, k requires 0 <= k < |texts| => Highlighted(texts[k]))
  }

  /**
    A whole-word keyword match inside a paragraph is one in the summary too:
    each paragraph ends at a line feed or at an end of the summary.
   */
  lemma ParagraphMatchInSummary(summary: string, kw: string)
    ensures forall k :: 0 <= k < |Paragraphs(summary)| ==>
      HasMatchFrom(Paragraphs(summary)[k], kw, 0) ==> HasMatchFrom(summary, kw, 0)
  {
    SplitFromMatchInText(summary, ParagraphSeparator, 0, 0, kw);
  }

  /** A summary in which no keyword matches renders as its paragraphs unchanged, which join back to the summary. */
  lemma HighlightParagraphsUnchanged(summary: string)
    requires forall j :: 0 <= j < |Keywords| ==> !HasMatchFrom(summary, Keywords[j], 0)
    ensures HighlightEach(Paragraphs(summary)) == Paragraphs(summary)
    ensures Join(HighlightEach(Paragraphs(summary)), ParagraphSeparator) == summary
  {
    var ps := Paragraphs(summary);
    forall k | 0 <= k < |ps| ensures Highlighted(ps[k]) == ps[k] {
      forall j | 0 <= j < |Keywords| ensures !HasMatchFrom(ps[k], Keywords[j], 0) {
        ParagraphMatchInSummary(summary, Keywords[j]);
      }
      HighlightedIdentity(ps[k]);
    }
    ParagraphsProperties(summary);
  }
}
