/** SQuAD-style answer normalisation (`normalize_squad` in code/metrics.py):
    lower-case, drop ASCII punctuation, replace the articles a/an/the by a
    space, then collapse whitespace. Characters are treated as ASCII: upper
    case, punctuation, word characters and whitespace are the ASCII classes. */
module Squad {
  import opened Seqs

  /** Python's `string.punctuation`: the 32 printable ASCII characters
      that are neither letters, digits nor the space. */
  predicate IsPunctuation(c: char) {
    ('!' <= c <= '/') || (':' <= c <= '@') || ('[' <= c <= '`') || ('{' <= c <= '~')
  }

  predicate IsUpper(c: char) {
    'A' <= c <= 'Z'
  }

  /** A character `\w` matches: ASCII letter, digit or underscore. */
  predicate IsWordChar(c: char) {
    ('a' <= c <= 'z') || ('A' <= c <= 'Z') || ('0' <= c <= '9') || c == '_'
  }

  /** ASCII characters on which Python's `str.split()` splits: tab, line
      feed, vertical tab, form feed, carriage return, the four information
      separators 0x1C..0x1F, and the space. */
  predicate IsSpace(c: char) {
    (9 <= c as int <= 13) || (28 <= c as int <= 32)
  }

  /** A token produced by `str.split()`: non-empty, free of whitespace. */
  predicate IsToken(t: string) {
    |t| > 0 && forall i :: 0 <= i < |t| ==> !IsSpace(t[i])
  }

  /** The shape `" ".join(s.split())` produces: the only whitespace is the
      plain space, never first, never last and never doubled. */
  predicate Tidy(s: string) {
    forall i :: 0 <= i < |s| && IsSpace(s[i]) ==>
      s[i] == ' ' && 0 < i < |s| - 1 && !IsSpace(s[i + 1])
  }

  /** One of the three words `normalize_squad` removes. */
  predicate IsArticle(w: string) {
    w == "a" || w == "an" || w == "the"
  }

  /** Holds when no character of `s` is an ASCII capital or punctuation. */
  predicate Clean(s: string) {
    forall i :: 0 <= i < |s| ==> !IsUpper(s[i]) && !IsPunctuation(s[i])
  }

  // ---------------------------------------------------------------- lower

  function ToLower(c: char): (d: char)
    ensures !IsUpper(d)
    ensures IsPunctuation(d) <==> IsPunctuation(c)
    ensures IsSpace(d) <==> IsSpace(c)
    ensures !IsUpper(c) ==> d == c
    ensures IsUpper(c) ==> d as int == c as int + 32
  {
    if IsUpper(c) then (c as int + 32) as char else c
  }

  /** `text.lower()` over ASCII. */
  function Lower(s: string): (r: string)
    ensures |r| == |s|
    ensures forall i :: 0 <= i < |s| ==> !IsUpper(r[i])
    ensures forall i :: 0 <= i < |s| && !IsUpper(s[i]) ==> r[i] == s[i]
    ensures forall i :: 0 <= i < |s| && IsUpper(s[i]) ==> r[i] as int == s[i] as int + 32
  {
    seq(|s|, i requires 0 <= i < |s| => ToLower(s[i]))
  }

  // ---------------------------------------------------------- punctuation

  /** `replace_punctuation(s, repl)`: every punctuation character of `s`
      becomes `repl`, every other character is kept. */
  function ReplacePunctuation(s: string, repl: string): (r: string)
    ensures forall c :: c in r ==> (c in s && !IsPunctuation(c)) || c in repl
    ensures forall i :: 0 <= i < |s| && !IsPunctuation(s[i]) ==> s[i] in r
    ensures repl == [] ==> |r| <= |s|
    ensures |repl| == 1 ==> |r| == |s|
  {
    if s == [] then []
    else (if IsPunctuation(s[0]) then repl else [s[0]]) + ReplacePunctuation(s[1..], repl)
  }

  predicate IsNotPunctuation(c: char) {
    !IsPunctuation(c)
  }

  /** With an empty replacement, punctuation is deleted: the result is the
      list of the other characters, in order. */
  lemma {:induction false} ReplacePunctuationDeletes(s: string)
    ensures ReplacePunctuation(s, "") == Filter(s, IsNotPunctuation)
  {
    if s != [] {
      ReplacePunctuationDeletes(s[1..]);
      if IsPunctuation(s[0]) {
        assert ReplacePunctuation(s, "") == "" + ReplacePunctuation(s[1..], "");
      }
    }
  }

  // ------------------------------------------------------------- articles

  /** The length of the leading run of word characters of `s`. */
  function WordRun(s: string): (n: nat)
    ensures n <= |s|
    ensures forall i :: 0 <= i < n ==> IsWordChar(s[i])
    ensures n < |s| ==> !IsWordChar(s[n])
  {
    if s == [] || !IsWordChar(s[0]) then 0 else 1 + WordRun(s[1..])
  }

  /** The leading word run is the only run with a non-word character, or
      the end, right after it. */
  lemma WordRunIs(s: string, k: nat)
    requires k <= |s|
    requires forall i :: 0 <= i < k ==> IsWordChar(s[i])
    requires k == |s| || !IsWordChar(s[k])
    ensures WordRun(s) == k
  {
  }

  /** `w` stands at the start of `s` and is followed by a word boundary. */
  predicate WordAt(s: string, w: string) {
    w <= s && (|s| == |w| || !IsWordChar(s[|w|]))
  }

  /** The length of the article a, an or the that stands at the start of
      `s` with a word boundary after it, or 0 if there is none. */
  function ArticleAt(s: string): (n: nat)
    ensures n <= |s| && n <= 3
    ensures n > 0 ==> IsArticle(s[..n]) && WordAt(s, s[..n])
    ensures n > 0 ==> s[0] == 'a' || s[0] == 't'
    ensures WordAt(s, "a") || WordAt(s, "an") || WordAt(s, "the") ==> n > 0
  {
    if WordAt(s, "a") then assert s[..1] == "a"; 1
    else if WordAt(s, "an") then assert s[..2] == "an"; 2
    else if WordAt(s, "the") then assert s[..3] == "the"; 3
    else 0
  }

  /** `re.sub(r"\b(a|an|the)\b", " ", s)` on the rest `s` of a string
      whose previous character was a word character iff `afterWord`. An
      article starts with a word character, so the opening `\b` holds
      exactly when the previous character is not one. */
  function RemoveArticlesAfter(s: string, afterWord: bool): (r: string)
    decreases |s|
    ensures forall c :: c in r ==> c in s || c == ' '
    ensures |r| <= |s|
    ensures (forall i :: 0 <= i < |s| ==> s[i] != 'a' && s[i] != 't') ==> r == s
  {
    if s == [] then []
    else
      var n := if afterWord then 0 else ArticleAt(s);
      if n > 0 then " " + RemoveArticlesAfter(s[n..], true)
      else [s[0]] + RemoveArticlesAfter(s[1..], IsWordChar(s[0]))
  }

  function RemoveArticles(s: string): (r: string)
    ensures forall c :: c in r ==> c in s || c == ' '
    ensures |r| <= |s|
    ensures (forall i :: 0 <= i < |s| ==> s[i] != 'a' && s[i] != 't') ==> r == s
  {
    RemoveArticlesAfter(s, false)
  }

  /** Whether an article starts at `s` depends only on the leading word run. */
  lemma ArticleAtSameWord(s: string, u: string)
    requires WordRun(s) == WordRun(u)
    requires s[..WordRun(s)] == u[..WordRun(u)]
    ensures ArticleAt(s) == ArticleAt(u)
  {
    WordAtByRun(s, "a"); WordAtByRun(u, "a");
    WordAtByRun(s, "an"); WordAtByRun(u, "an");
    WordAtByRun(s, "the"); WordAtByRun(u, "the");
  }

  /** A word of word characters stands at the start of `s` exactly when it
      is the leading word run. */
  lemma WordAtByRun(s: string, w: string)
    requires forall i :: 0 <= i < |w| ==> IsWordChar(w[i])
    ensures WordAt(s, w) <==> |w| <= |s| && WordRun(s) == |w| && s[..|w|] == w
  {
    if WordAt(s, w) {
      assert forall i :: 0 <= i < |w| ==> s[i] == w[i];
      WordRunIs(s, |w|);
    }
  }

  /** After a word character the scan copies the rest of the word and the
      character that ends it. */
  lemma {:induction false} ScanCopiesWord(s: string)
    decreases |s|
    ensures WordRun(s) <= |RemoveArticlesAfter(s, true)|
    ensures forall j :: 0 <= j <= WordRun(s) && j < |s| ==>
      j < |RemoveArticlesAfter(s, true)| && RemoveArticlesAfter(s, true)[j] == s[j]
  {
    if s != [] {
      var r, k := RemoveArticlesAfter(s, true), WordRun(s);
      var rest := RemoveArticlesAfter(s[1..], IsWordChar(s[0]));
      assert r == [s[0]] + rest;
      if k > 0 {
        ScanCopiesWord(s[1..]);
        assert WordRun(s[1..]) == k - 1;
        forall j | 0 < j <= k && j < |s| ensures j < |r| && r[j] == s[j] {
          assert r[j] == rest[j - 1] && s[j] == s[1..][j - 1];
        }
      }
    }
  }

  /** The scan after a word character leaves the article status of the
      start unchanged. */
  lemma ScanKeepsLeadingWord(s: string)
    ensures ArticleAt(RemoveArticlesAfter(s, true)) == ArticleAt(s)
  {
    var r, k := RemoveArticlesAfter(s, true), WordRun(s);
    ScanCopiesWord(s);
    if k < |s| {
      WordRunIs(r, k);
    } else {
      assert r[..k] == s;
      WordRunIs(r, k);
    }
    ArticleAtSameWord(r, s);
  }

  /** No article starts at a word boundary of `r`; `afterWord` says whether
      a word character stands before `r`. */
  ghost predicate NoArticleAtBoundary(r: string, afterWord: bool) {
    forall i :: 0 <= i < |r| && (if i == 0 then !afterWord else !IsWordChar(r[i - 1])) ==> ArticleAt(r[i..]) == 0
  }

  /** One character in front of a string: boundaries inside the rest are
      covered by the rest, the boundary right after the character by whether
      it is a word character, and the start by `ArticleAt(r)`. */
  lemma NoArticleAtBoundaryCons(r: string, afterWord: bool)
    requires |r| > 0
    requires NoArticleAtBoundary(r[1..], true)
    requires !IsWordChar(r[0]) && 1 < |r| ==> ArticleAt(r[1..]) == 0
    requires !afterWord ==> ArticleAt(r) == 0
    ensures NoArticleAtBoundary(r, afterWord)
  {
    var rest := r[1..];
    forall i | 0 <= i < |r| && (if i == 0 then !afterWord else !IsWordChar(r[i - 1]))
      ensures ArticleAt(r[i..]) == 0
    {
      if i > 0 {
        assert r[i..] == rest[i - 1..];
        if i > 1 {
          assert r[i - 1] == rest[i - 2];
        }
      }
    }
  }

  /** Dropping the first character keeps the rest free of boundary
      articles, now seen after that character. */
  lemma NoArticleAtBoundaryTail(r: string, afterWord: bool)
    requires |r| > 0
    requires NoArticleAtBoundary(r, afterWord)
    ensures NoArticleAtBoundary(r[1..], IsWordChar(r[0]))
  {
    var rest := r[1..];
    forall i | 0 <= i < |rest| && (if i == 0 then !IsWordChar(r[0]) else !IsWordChar(rest[i - 1]))
      ensures ArticleAt(rest[i..]) == 0
    {
      assert rest[i..] == r[i + 1..];
      assert r[i] == if i == 0 then r[0] else rest[i - 1];
    }
  }

  /** Knowing a word character stands before the string is the weaker
      claim: it drops the check at the start. */
  lemma NoArticleAtBoundaryWeaken(r: string, afterWord: bool)
    requires NoArticleAtBoundary(r, afterWord)
    ensures NoArticleAtBoundary(r, true)
  {
  }

  /** The scan leaves no article at a word boundary. */
  lemma {:induction false} RemoveArticlesAfterLeavesNone(s: string, afterWord: bool)
    decreases |s|
    ensures NoArticleAtBoundary(RemoveArticlesAfter(s, afterWord), afterWord)
  {
    var r := RemoveArticlesAfter(s, afterWord);
    if s != [] {
      var n := if afterWord then 0 else ArticleAt(s);
      if n > 0 {
        var rest := RemoveArticlesAfter(s[n..], true);
        assert r == " " + rest && r[1..] == rest;
        RemoveArticlesAfterLeavesNone(s[n..], true);
        ScanKeepsLeadingWord(s[n..]);
        if n < |s| {
          assert !IsWordChar(s[n..][0]);
        }
        NoArticleAtBoundaryCons(r, afterWord);
      } else {
        var wordBefore := IsWordChar(s[0]);
        var rest := RemoveArticlesAfter(s[1..], wordBefore);
        assert r == [s[0]] + rest && r[1..] == rest;
        RemoveArticlesAfterLeavesNone(s[1..], wordBefore);
        NoArticleAtBoundaryWeaken(rest, wordBefore);
        if !wordBefore && rest != [] {
          assert rest[0..] == rest;
        }
        if !afterWord {
          assert r == RemoveArticlesAfter(s, true);
          ScanKeepsLeadingWord(s);
        }
        NoArticleAtBoundaryCons(r, afterWord);
      }
    }
  }

  /** A string with no article at a word boundary passes through the scan
      unchanged. */
  lemma {:induction false} RemoveArticlesAfterKeeps(s: string, afterWord: bool)
    decreases |s|
    requires NoArticleAtBoundary(s, afterWord)
    ensures RemoveArticlesAfter(s, afterWord) == s
  {
    if s != [] {
      if !afterWord {
        assert s[0..] == s;
      }
      NoArticleAtBoundaryTail(s, afterWord);
      RemoveArticlesAfterKeeps(s[1..], IsWordChar(s[0]));
    }
  }

  /** Removing the articles a second time changes nothing more. */
  lemma RemoveArticlesIdempotent(s: string)
    ensures RemoveArticles(RemoveArticles(s)) == RemoveArticles(s)
  {
    RemoveArticlesAfterLeavesNone(s, false);
    RemoveArticlesAfterKeeps(RemoveArticles(s), false);
  }

  // ------------------------------------------------------------ whitespace

  /** The length of the longest prefix of `s` without whitespace. */
  function WordLength(s: string): (n: nat)
    ensures n <= |s|
    ensures forall i :: 0 <= i < n ==> !IsSpace(s[i])
    ensures n < |s| ==> IsSpace(s[n])
  {
    if s == [] || IsSpace(s[0]) then 0 else 1 + WordLength(s[1..])
  }

  /** `s.split()`: the maximal runs of non-whitespace characters. */
  function Split(s: string): (ts: seq<string>)
    decreases |s|
    ensures forall t :: t in ts ==> IsToken(t)
    ensures forall t, c :: t in ts && c in t ==> c in s
    ensures s != [] && !IsSpace(s[0]) ==> ts != []
  {
    if s == [] then []
    else if IsSpace(s[0]) then Split(s[1..])
    else
      var n := WordLength(s);
      [s[..n]] + Split(s[n..])
  }

  /** `t` stands in `s` at position `i` with whitespace or an end of `s`
      on either side. */
  predicate TokenAt(s: string, t: string, i: int) {
    0 <= i && i + |t| <= |s| && s[i..i + |t|] == t &&
    (i == 0 || IsSpace(s[i - 1])) && (i + |t| == |s| || IsSpace(s[i + |t|]))
  }

  /** The longest whitespace-free prefix is the one followed by whitespace
      or the end. */
  lemma WordLengthIs(s: string, k: nat)
    requires k <= |s|
    requires forall i :: 0 <= i < k ==> !IsSpace(s[i])
    requires k == |s| || IsSpace(s[k])
    ensures WordLength(s) == k
  {
  }

  /** A token standing in a suffix `s[k..]` stands in `s`, provided it
      does not start the suffix right after a non-space. */
  lemma TokenAtShift(s: string, k: nat, t: string, i: int)
    requires k <= |s|
    ensures TokenAt(s[k..], t, i) && (i > 0 || k == 0 || IsSpace(s[k - 1])) ==> TokenAt(s, t, k + i)
    ensures TokenAt(s, t, k + i) && i > 0 ==> TokenAt(s[k..], t, i)
  {
    if 0 <= i && k + i + |t| <= |s| {
      assert s[k..][i..i + |t|] == s[k + i..k + i + |t|];
    }
  }

  /** Every token of `s.split()` stands in `s` between whitespace or the ends. */
  lemma SplitTokensStand(s: string)
    ensures forall t :: t in Split(s) ==> exists i :: TokenAt(s, t, i)
  {
    forall t | t in Split(s) ensures exists i :: TokenAt(s, t, i) {
      var i := TokenPosition(s, t);
    }
  }

  /** Where a token of `s.split()` stands in `s`. */
  lemma {:induction false} TokenPosition(s: string, t: string) returns (i: int)
    decreases |s|, 2
    requires t in Split(s)
    ensures TokenAt(s, t, i)
  {
    if IsSpace(s[0]) {
      assert Split(s) == Split(s[1..]);
      var j := TokenPosition(s[1..], t);
      TokenAtShift(s, 1, t, j);
      i := j + 1;
    } else {
      i := TokenPositionFromWord(s, t);
    }
  }

  /** The same, for a string that starts with a word: the token is either
      that word or a token of the rest. */
  lemma {:induction false} TokenPositionFromWord(s: string, t: string) returns (i: int)
    decreases |s|, 1
    requires s != [] && !IsSpace(s[0])
    requires t in Split(s)
    ensures TokenAt(s, t, i)
  {
    var n := WordLength(s);
    assert Split(s) == [s[..n]] + Split(s[n..]);
    if t == s[..n] {
      assert s[0..n] == t;
      i := 0;
    } else {
      i := TokenPositionAfterWord(s, n, t);
    }
  }

  /** A token of the rest after the leading word stands in `s` past it. */
  lemma {:induction false} TokenPositionAfterWord(s: string, n: nat, t: string) returns (i: int)
    decreases |s|, 0
    requires 0 < n == WordLength(s)
    requires t in Split(s[n..])
    ensures TokenAt(s, t, i)
  {
    var j := TokenPosition(s[n..], t);
    assert IsToken(t) && IsSpace(s[n..][0]);
    TokenAtShift(s, n, t, j);
    i := n + j;
  }

  /** Conversely, every run of non-whitespace standing between whitespace
      or the ends of `s` is a token of `s.split()`. */
  lemma {:induction false} TokenStandsInSplit(s: string, t: string, i: int)
    decreases |s|, 1
    requires IsToken(t) && TokenAt(s, t, i)
    ensures t in Split(s)
  {
    if IsSpace(s[0]) {
      assert i > 0;
      TokenAtShift(s, 1, t, i - 1);
      TokenStandsInSplit(s[1..], t, i - 1);
    } else if i == 0 {
      LeadingTokenInSplit(s, t);
    } else {
      TokenStandsInSplitAfterWord(s, t, i);
    }
  }

  /** A token at the very start of `s` is its first token. */
  lemma LeadingTokenInSplit(s: string, t: string)
    requires IsToken(t) && TokenAt(s, t, 0)
    ensures t in Split(s)
  {
    assert forall j :: 0 <= j < |t| ==> s[j] == t[j];
    WordLengthIs(s, |t|);
    assert s[..|t|] == t;
  }

  /** A token further into a string that starts with a word stands past
      that word, in the rest. */
  lemma {:induction false} TokenStandsInSplitAfterWord(s: string, t: string, i: int)
    decreases |s|, 0
    requires IsToken(t) && TokenAt(s, t, i) && i > 0 && !IsSpace(s[0])
    ensures t in Split(s)
  {
    var n := WordLength(s);
    assert i > n;
    TokenAtShift(s, n, t, i - n);
    TokenStandsInSplit(s[n..], t, i - n);
    assert Split(s) == [s[..n]] + Split(s[n..]);
  }

  /** `s.split()` holds exactly the whitespace-free words standing between
      whitespace or the ends of `s`. */
  lemma SplitTokens(s: string, t: string)
    ensures t in Split(s) <==> IsToken(t) && exists i :: TokenAt(s, t, i)
  {
    SplitTokensStand(s);
    if IsToken(t) && exists i :: TokenAt(s, t, i) {
      var i :| TokenAt(s, t, i);
      TokenStandsInSplit(s, t, i);
    }
  }

  /** `split()` on whitespace splits the two sides apart: the tokens of
      `s1 + [c] + s2` are those of `s1` followed by those of `s2`. With
      `SplitJoin` this pins `Split` on every input, order and repetitions
      included. */
  lemma {:induction false} SplitAtSpace(s1: string, c: char, s2: string)
    decreases |s1|
    requires IsSpace(c)
    ensures Split(s1 + [c] + s2) == Split(s1) + Split(s2)
  {
    if s1 == [] {
      assert s1 + [c] + s2 == [c] + s2;
      SplitSpaceFirst(c, s2);
    } else if IsSpace(s1[0]) {
      assert s1 + [c] + s2 == [s1[0]] + (s1[1..] + [c] + s2);
      SplitSpaceFirst(s1[0], s1[1..] + [c] + s2);
      SplitSpaceFirst(s1[0], s1[1..]);
      assert [s1[0]] + s1[1..] == s1;
      SplitAtSpace(s1[1..], c, s2);
    } else {
      var m := WordLength(s1);
      var w, rest := s1[..m], s1[m..];
      assert s1 == w + rest;
      SplitAtSpace(rest, c, s2);
      SplitAfterToken(w, rest, c, s2);
    }
  }

  /** The step of `SplitAtSpace` past a leading token. */
  lemma SplitAfterToken(w: string, rest: string, c: char, s2: string)
    requires IsToken(w) && IsSpace(c)
    requires rest == [] || IsSpace(rest[0])
    requires Split(rest + [c] + s2) == Split(rest) + Split(s2)
    ensures Split(w + rest + [c] + s2) == Split(w + rest) + Split(s2)
  {
    var tail := rest + [c] + s2;
    AppendRegroup(w, rest + [c], s2);
    AppendRegroup(w, rest, [c]);
    assert tail == [] || IsSpace(tail[0]);
    SplitTokenFirst(w, tail);
    SplitTokenFirst(w, rest);
  }

  /** `" ".join(ts)`: it begins with the first token, and every character
      is a space or comes from one of the tokens. */
  function Join(ts: seq<string>): (r: string)
    ensures ts != [] ==> ts[0] <= r
    ensures forall c :: c in r ==> c == ' ' || exists t :: t in ts && c in t
  {
    if ts == [] then ""
    else if |ts| == 1 then ts[0]
    else
      var t, rest := ts[0], Join(ts[1..]);
      forall c | c in rest && c != ' ' ensures exists u :: u in ts && c in u {
        var u :| u in ts[1..] && c in u;
        assert u in ts;
      }
      assert ts[0] in ts;
      t + " " + rest
  }

  /** Joining tokens gives a tidy string. */
  lemma {:induction false} JoinShape(ts: seq<string>)
    requires forall t :: t in ts ==> IsToken(t)
    ensures Tidy(Join(ts))
  {
    if |ts| == 1 {
      assert Join(ts) == ts[0];
      assert IsToken(ts[0]);
    } else if |ts| > 1 {
      var t, rest := ts[0], Join(ts[1..]);
      JoinShape(ts[1..]);
      assert IsToken(t) && ts[1] in ts[1..] && IsToken(ts[1]);
      assert ts[1] <= rest;
      var s := t + " " + rest;
      assert Join(ts) == s;
      assert forall i :: 0 <= i < |t| ==> s[i] == t[i];
      assert forall i :: |t| < i < |s| ==> s[i] == rest[i - |t| - 1];
      assert s[|t| + 1] == rest[0] == ts[1][0];
    }
  }

  /** A token followed by whitespace or nothing: its word length is its own. */
  lemma {:induction false} WordLengthOfToken(t: string, u: string)
    requires IsToken(t)
    requires u == [] || IsSpace(u[0])
    ensures WordLength(t + u) == |t|
  {
    if |t| > 1 {
      assert (t + u)[1..] == t[1..] + u;
      WordLengthOfToken(t[1..], u);
    } else {
      assert (t + u)[1..] == u;
    }
  }

  /** Round trip: splitting the join of tokens gives the tokens back. */
  lemma {:induction false} SplitJoin(ts: seq<string>)
    requires forall t :: t in ts ==> IsToken(t)
    ensures Split(Join(ts)) == ts
  {
    if |ts| == 1 {
      var t := ts[0];
      WordLengthOfToken(t, []);
      assert t + [] == t;
      assert t[..|t|] == t;
      assert t[|t|..] == [];
    } else if |ts| > 1 {
      var t, rest := ts[0], Join(ts[1..]);
      var s := t + " " + rest;
      assert s == t + (" " + rest);
      WordLengthOfToken(t, " " + rest);
      assert s[..|t|] == t;
      assert s[|t|..] == " " + rest;
      assert (" " + rest)[1..] == rest;
      SplitJoin(ts[1..]);
      assert Split(s) == [t] + Split(" " + rest);
      assert ts == [ts[0]] + ts[1..];
    }
  }

  /** `white_space_fix`: `" ".join(s.split())`. */
  function WhiteSpaceFix(s: string): (r: string)
    ensures Split(r) == Split(s)
    ensures forall c :: c in r ==> c in s || c == ' '
  {
    var ts := Split(s);
    JoinShape(ts);
    SplitJoin(ts);
    Join(ts)
  }

  /** Collapsing whitespace leaves only single spaces between tokens. */
  lemma WhiteSpaceFixTidy(s: string)
    ensures Tidy(WhiteSpaceFix(s))
  {
    JoinShape(Split(s));
  }

  /** Collapsing whitespace twice changes nothing more. */
  lemma WhiteSpaceFixIdempotent(s: string)
    ensures WhiteSpaceFix(WhiteSpaceFix(s)) == WhiteSpaceFix(s)
  {
  }

  // ---------------------------------------------------- articles as tokens

  /** Every character is a `\w` character or whitespace. */
  predicate WordsAndSpaces(s: string) {
    forall i :: 0 <= i < |s| ==> IsWordChar(s[i]) || IsSpace(s[i])
  }

  predicate IsNotArticle(w: string) {
    !IsArticle(w)
  }

  /** An article starts `s` exactly when its leading word run is one, and
      then the article is that whole run. */
  lemma ArticleAtLeadingWord(s: string)
    ensures ArticleAt(s) == if IsArticle(s[..WordRun(s)]) then WordRun(s) else 0
  {
    WordAtByRun(s, "a");
    WordAtByRun(s, "an");
    WordAtByRun(s, "the");
  }

  /** Concatenation regroups; proved apart from the scan's context. */
  lemma AppendRegroup(a: string, b: string, c: string)
    ensures a + (b + c) == (a + b) + c
  {
  }

  /** Slicing off the first element, stated once for the scan lemmas. */
  lemma SliceAfterFirst(x: string, j: nat)
    requires 0 < j <= |x|
    ensures x[..j] == [x[0]] + x[1..][..j - 1]
    ensures x[1..][j - 1..] == x[j..]
  {
  }

  /** After a word character the scan copies the first `j` characters of
      the word it is in. */
  lemma {:induction false} ScanCopiesPrefix(x: string, j: nat)
    decreases j
    requires j <= WordRun(x)
    ensures RemoveArticlesAfter(x, true) == x[..j] + RemoveArticlesAfter(x[j..], true)
  {
    if j == 0 {
      assert x[..0] == [] && x[0..] == x;
    } else {
      var t := x[1..];
      assert IsWordChar(x[0]) && WordRun(t) == WordRun(x) - 1;
      SliceAfterFirst(x, j);
      ScanCopiesPrefix(t, j - 1);
      var rest := RemoveArticlesAfter(x[j..], true);
      calc {
        RemoveArticlesAfter(x, true);
        [x[0]] + RemoveArticlesAfter(t, true);
        [x[0]] + (t[..j - 1] + rest);
        { AppendRegroup([x[0]], t[..j - 1], rest); }
        ([x[0]] + t[..j - 1]) + rest;
      }
    }
  }

  /** At a non-word character, or at the end, what came before does not
      matter to the scan. */
  lemma ScanAfterNonWord(x: string)
    requires x == [] || !IsWordChar(x[0])
    ensures RemoveArticlesAfter(x, true) == RemoveArticlesAfter(x, false)
  {
    if x != [] {
      assert ArticleAt(x) == 0;
    }
  }

  /** Leading whitespace adds no token. */
  lemma SplitSpaceFirst(c: char, y: string)
    requires IsSpace(c)
    ensures Split([c] + y) == Split(y)
  {
    assert ([c] + y)[1..] == y;
  }

  /** A token followed by whitespace or the end is the first token. */
  lemma SplitTokenFirst(w: string, y: string)
    requires IsToken(w)
    requires y == [] || IsSpace(y[0])
    ensures Split(w + y) == [w] + Split(y)
  {
    WordLengthOfToken(w, y);
    assert (w + y)[..|w|] == w;
    assert (w + y)[|w|..] == y;
  }

  /** Scanning from a word boundary, the part of `s` after its first word:
      it is empty or starts with whitespace, and so does its scan. */
  lemma RestAfterWord(s: string, k: nat)
    requires WordsAndSpaces(s) && k == WordRun(s)
    ensures WordsAndSpaces(s[k..])
    ensures RemoveArticlesAfter(s[k..], true) == RemoveArticles(s[k..])
    ensures var y := RemoveArticles(s[k..]); y == [] || IsSpace(y[0])
  {
    var rest := s[k..];
    assert forall i :: 0 <= i < |rest| ==> rest[i] == s[k + i];
    ScanAfterNonWord(rest);
    if rest != [] {
      assert ArticleAt(rest) == 0;
      assert RemoveArticles(rest) == [rest[0]] + RemoveArticlesAfter(rest[1..], false);
    }
  }

  /** On text of words and whitespace, removing the articles keeps exactly
      the tokens that are not articles, in order and with repetitions. */
  lemma {:induction false} RemoveArticlesTokens(s: string)
    decreases |s|
    requires WordsAndSpaces(s)
    ensures Split(RemoveArticles(s)) == Filter(Split(s), IsNotArticle)
  {
    if s != [] {
      if IsSpace(s[0]) {
        assert ArticleAt(s) == 0;
        assert RemoveArticles(s) == [s[0]] + RemoveArticles(s[1..]);
        SplitSpaceFirst(s[0], RemoveArticles(s[1..]));
        assert WordsAndSpaces(s[1..]);
        RemoveArticlesTokens(s[1..]);
      } else {
        var k := WordRun(s);
        RestAfterWord(s, k);
        RemoveArticlesTokens(s[k..]);
        if IsArticle(s[..k]) {
          RemoveArticlesDropsWord(s, k);
        } else {
          RemoveArticlesKeepsWord(s, k);
        }
      }
    }
  }

  /** A leading word of `s` and the rest: the tokens of `s`. */
  lemma SplitLeadingWord(s: string, k: nat)
    requires WordsAndSpaces(s) && s != [] && !IsSpace(s[0]) && k == WordRun(s)
    ensures k > 0 && IsToken(s[..k])
    ensures Split(s) == [s[..k]] + Split(s[k..])
  {
    WordLengthIs(s, k);
  }

  /** A leading article becomes a space, and its token disappears. */
  lemma RemoveArticlesDropsWord(s: string, k: nat)
    requires WordsAndSpaces(s) && s != [] && !IsSpace(s[0]) && k == WordRun(s)
    requires IsArticle(s[..k])
    requires Split(RemoveArticles(s[k..])) == Filter(Split(s[k..]), IsNotArticle)
    requires RemoveArticlesAfter(s[k..], true) == RemoveArticles(s[k..])
    ensures Split(RemoveArticles(s)) == Filter(Split(s), IsNotArticle)
  {
    SplitLeadingWord(s, k);
    ArticleAtLeadingWord(s);
    assert RemoveArticles(s) == " " + RemoveArticles(s[k..]);
    SplitSpaceFirst(' ', RemoveArticles(s[k..]));
    assert ([s[..k]] + Split(s[k..]))[1..] == Split(s[k..]);
  }

  /** A leading word that is not an article is copied, token and all. */
  lemma RemoveArticlesKeepsWord(s: string, k: nat)
    requires WordsAndSpaces(s) && s != [] && !IsSpace(s[0]) && k == WordRun(s)
    requires !IsArticle(s[..k])
    requires Split(RemoveArticles(s[k..])) == Filter(Split(s[k..]), IsNotArticle)
    requires RemoveArticlesAfter(s[k..], true) == RemoveArticles(s[k..])
    requires var y := RemoveArticles(s[k..]); y == [] || IsSpace(y[0])
    ensures Split(RemoveArticles(s)) == Filter(Split(s), IsNotArticle)
  {
    var w, y := s[..k], RemoveArticles(s[k..]);
    var t := s[1..];
    SplitLeadingWord(s, k);
    ArticleAtLeadingWord(s);
    assert WordRun(t) == k - 1;
    SliceAfterFirst(s, k);
    ScanCopiesPrefix(t, k - 1);
    calc {
      RemoveArticles(s);
      [s[0]] + RemoveArticlesAfter(t, true);
      [s[0]] + (t[..k - 1] + y);
      { AppendRegroup([s[0]], t[..k - 1], y); }
      w + y;
    }
    SplitTokenFirst(w, y);
    assert ([w] + Split(s[k..]))[1..] == Split(s[k..]);
  }

  // ------------------------------------------------------------ pipeline

  /** `normalize_squad`: the result has no capitals and no punctuation. */
  function Normalize(text: string): (r: string)
    ensures Clean(r)
  {
    var lowered := Lower(text);
    var unpunctuated := ReplacePunctuation(lowered, "");
    assert forall c :: c in lowered ==> !IsUpper(c);
    var fixed := WhiteSpaceFix(RemoveArticles(unpunctuated));
    assert forall i :: 0 <= i < |fixed| ==> fixed[i] in fixed;
    fixed
  }

  /** Every character is a `\w` character, ASCII punctuation or whitespace. */
  predicate PlainText(text: string) {
    forall i :: 0 <= i < |text| ==> IsWordChar(text[i]) || IsPunctuation(text[i]) || IsSpace(text[i])
  }

  /** Lower-casing and deleting punctuation leave only words and whitespace. */
  lemma PlainTextUnpunctuated(text: string)
    requires PlainText(text)
    ensures WordsAndSpaces(ReplacePunctuation(Lower(text), ""))
  {
    var lowered := Lower(text);
    var u := ReplacePunctuation(lowered, "");
    assert forall j :: 0 <= j < |lowered| ==> IsWordChar(lowered[j]) || IsPunctuation(lowered[j]) || IsSpace(lowered[j]);
    forall i | 0 <= i < |u|
      ensures IsWordChar(u[i]) || IsSpace(u[i])
    {
      assert u[i] in u;
    }
  }

  /** On plain text, the normalised string is the single-spaced join of the
      lower-cased, punctuation-free tokens that are not articles, in order
      and with repetitions. */
  lemma NormalizeTokens(text: string)
    requires PlainText(text)
    ensures Split(Normalize(text)) == Filter(Split(ReplacePunctuation(Lower(text), "")), IsNotArticle)
    ensures Normalize(text) == Join(Filter(Split(ReplacePunctuation(Lower(text), "")), IsNotArticle))
  {
    PlainTextUnpunctuated(text);
    RemoveArticlesTokens(ReplacePunctuation(Lower(text), ""));
  }

  /** A normalised string has no leading, trailing, doubled or non-space
      whitespace. */
  lemma NormalizeShape(text: string)
    ensures Tidy(Normalize(text))
  {
    WhiteSpaceFixTidy(RemoveArticles(ReplacePunctuation(Lower(text), "")));
  }

  /** No token of a normalised answer is an article. */
  lemma NormalizeDropsArticles(text: string, t: string)
    requires t in Split(Normalize(text))
    ensures !IsArticle(t)
  {
    var r := RemoveArticles(ReplacePunctuation(Lower(text), ""));
    RemoveArticlesAfterLeavesNone(ReplacePunctuation(Lower(text), ""), false);
    assert t in Split(r);
    SplitTokensStand(r);
    var i :| TokenAt(r, t, i);
    assert ArticleAt(r[i..]) == 0;
    assert t <= r[i..];
    assert WordAt(r[i..], t);
  }

  /** A non-empty normalised answer has at least one token. */
  lemma NormalizedHasTokens(text: string)
    requires Normalize(text) != ""
    ensures Split(Normalize(text)) != []
  {
    NormalizeShape(text);
  }

  /** A lone capital article normalises to the empty string. */
  lemma NormalizeLoneA()
    ensures Normalize("A") == ""
  {
    assert Lower("A") == "a";
    assert ReplacePunctuation("a", "") == "a";
    assert RemoveArticles("a") == " ";
  }

  /** So does a lone "an". */
  lemma NormalizeLoneAn()
    ensures Normalize("an") == ""
  {
    assert Lower("an") == "an";
    assert ReplacePunctuation("an", "") == "an";
    RemoveArticlesLoneAn();
    assert Split(" ") == [];
  }

  lemma RemoveArticlesLoneAn()
    ensures RemoveArticles("an") == " "
  {
    assert WordAt("an", "an") && !WordAt("an", "a");
    assert "an"[2..] == [];
  }
}
