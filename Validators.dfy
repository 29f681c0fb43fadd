/**
 * The forbidden-word content filter of blogicum/blog/validators.py.
 *
 * `forbidden_words(value)` lowercases the whitespace-separated words of
 * `value` into a set, lowercases the blocklist into a set, and reports every
 * blocklist word for which `difflib.get_close_matches(word, tokens, n=1,
 * cutoff=0.6)` is non-empty.  difflib's matcher is a parameter: `Matcher`
 * gives the number of matched characters M of SequenceMatcher(a=token,
 * b=word), and the ratio 2*M/(|a|+|b|) is computed exactly, as a `real`.
 */
module Validators {
  import opened Seqs

  /** Fixed tail of the rejection message ("... is forbidden to use!"). */
  const Suffix: string := " запрещено использовать!"
  const Separator: string := ", "
  /** The `cutoff` argument of `get_close_matches`. */
  const Cutoff: real := 0.6
  /** difflib's autojunk heuristic discards popular characters only when the second sequence is at least this long. */
  const AutojunkMinLength: nat := 200

  // ------------------------------------------------------------ tokenising

  /** The characters `str.split()` without arguments treats as whitespace. */
  predicate IsSpace(c: char)
  {
    || c == ' '
    || ('\t' <= c <= '\r')
    || ('\U{1c}' <= c <= '\U{1f}')
    || c == '\U{85}' || c == '\U{a0}' || c == '\U{1680}'
    || ('\U{2000}' <= c <= '\U{200a}')
    || c == '\U{2028}' || c == '\U{2029}' || c == '\U{202f}' || c == '\U{205f}' || c == '\U{3000}'
  }

  /** `str.split()`: maximal runs of non-whitespace, left to right; `word` is the run being read. */
  function SplitFrom(s: string, word: string): (r: seq<string>)
    requires forall c :: c in word ==> !IsSpace(c)
    ensures forall t :: t in r ==> t != [] && forall c :: c in t ==> !IsSpace(c)
    decreases |s|
  {
    if s == [] then
      (if word == [] then [] else [word])
    else if IsSpace(s[0]) then
      (if word == [] then [] else [word]) + SplitFrom(s[1..], [])
    else
      SplitFrom(s[1..], word + [s[0]])
  }

  function Split(s: string): (r: seq<string>)
    ensures forall t :: t in r ==> t != [] && forall c :: c in t ==> !IsSpace(c)
  {
    SplitFrom(s, [])
  }

  /** A run of non-whitespace characters, however it is entered, is read as one token. */
  lemma {:induction false} SplitFromRun(w: string, word: string)
    requires forall c :: c in word ==> !IsSpace(c)
    requires forall c :: c in w ==> !IsSpace(c)
    ensures SplitFrom(w, word) == if word + w == [] then [] else [word + w]
    decreases |w|
  {
    if w != [] {
      assert forall c :: c in w[1..] ==> c in w;
      SplitFromRun(w[1..], word + [w[0]]);
      assert word + [w[0]] + w[1..] == word + w;
    } else {
      assert word + w == word;
    }
  }

  /** A non-empty string without whitespace is a single token. */
  lemma SplitWord(w: string)
    requires w != [] && forall c :: c in w ==> !IsSpace(c)
    ensures Split(w) == [w]
  {
    SplitFromRun(w, []);
    assert [] + w == w;
  }

  /** A pending run, or any non-whitespace character ahead, yields at least one token. */
  lemma {:induction false} SplitFromNonEmpty(s: string, word: string)
    requires forall c :: c in word ==> !IsSpace(c)
    requires word != [] || exists c :: c in s && !IsSpace(c)
    ensures SplitFrom(s, word) != []
    decreases |s|
  {
    if s != [] {
      if IsSpace(s[0]) {
        if word == [] {
          var c :| c in s && !IsSpace(c);
          assert c in s[1..];
          SplitFromNonEmpty(s[1..], []);
        }
      } else {
        SplitFromNonEmpty(s[1..], word + [s[0]]);
      }
    }
  }

  /** Only whitespace from here on, with no pending run, yields no token. */
  lemma {:induction false} SplitFromBlank(s: string)
    requires forall c :: c in s ==> IsSpace(c)
    ensures SplitFrom(s, []) == []
    decreases |s|
  {
    if s != [] {
      assert forall c :: c in s[1..] ==> c in s;
      SplitFromBlank(s[1..]);
    }
  }

  /** `str.split()` returns no token exactly when the string is empty or all whitespace. */
  lemma SplitEmptyIff(s: string)
    ensures Split(s) == [] <==> forall c :: c in s ==> IsSpace(c)
  {
    if forall c :: c in s ==> IsSpace(c) {
      SplitFromBlank(s);
    } else {
      SplitFromNonEmpty(s, []);
    }
  }

  /**
   * `str.lower` on the letters this model knows: ASCII, Latin-1 and the
   * basic Cyrillic block; every other character is left as it is.
   */
  function LowerChar(c: char): char
  {
    if 'A' <= c <= 'Z' then (c as int + 32) as char
    else if ('\U{c0}' <= c <= '\U{de}') && c != '\U{d7}' then (c as int + 32) as char
    else if '\U{410}' <= c <= '\U{42f}' then (c as int + 32) as char
    else if '\U{400}' <= c <= '\U{40f}' then (c as int + 80) as char
    else c
  }

  function Lower(s: string): (r: string)
    ensures |r| == |s|
    ensures forall i :: 0 <= i < |s| ==> r[i] == LowerChar(s[i])
  {
    Map(s, LowerChar)
  }

  function LowerAll(words: seq<string>): (r: seq<string>)
    ensures |r| == |words|
    ensures forall i :: 0 <= i < |words| ==> r[i] == Lower(words[i])
  {
    Map(words, Lower)
  }

  /** `set(map(str.lower, value.split()))`, as a set. */
  ghost function TokenSet(value: string): set<string>
  {
    set t | t in Split(value) :: Lower(t)
  }

  /** The same set, enumerated once per element (Python's iteration order is not modelled). */
  function Tokens(value: string): (r: seq<string>)
    ensures forall t :: t in r <==> t in TokenSet(value)
    ensures NoDuplicates(r)
  {
    var r := Dedup(LowerAll(Split(value)));
    assert forall t :: t in LowerAll(Split(value)) <==> t in TokenSet(value) by {
      var ws := Split(value);
      forall t ensures t in LowerAll(ws) <==> t in TokenSet(value) {
        if t in LowerAll(ws) {
          var i :| 0 <= i < |ws| && LowerAll(ws)[i] == t;
          assert ws[i] in ws;
        }
        if t in TokenSet(value) {
          var w :| w in ws && Lower(w) == t;
          var i :| 0 <= i < |ws| && ws[i] == w;
          assert LowerAll(ws)[i] == t;
        }
      }
    }
    r
  }

  /** The lowercased blocklist, as a set. */
  ghost function ForbiddenSet(blocklist: seq<string>): set<string>
  {
    set w | w in blocklist :: Lower(w)
  }

  // ------------------------------------------------------------ similarity

  /** Number of characters SequenceMatcher(None, a, b) matches (difflib itself is not modelled). */
  type Matcher = (string, string) -> nat

  /**
   * What every difflib matching satisfies: the matched characters form a
   * sub-multiset of both strings, and a string shorter than the autojunk
   * threshold matches itself completely.
   */
  ghost predicate ValidMatcher(m: Matcher)
  {
    && (forall a, b :: m(a, b) <= |multiset(a) * multiset(b)|)
    && (forall a :: |a| < AutojunkMinLength ==> m(a, a) == |a|)
  }

  /** difflib's `_calculate_ratio`: 2*matches/length, or 1 when both strings are empty. */
  function RatioOf(matches: nat, length: nat): real
  {
    if length == 0 then 1.0 else 2.0 * (matches as real) / (length as real)
  }

  /** `ratio()` of SequenceMatcher(a, b). */
  function Ratio(a: string, b: string, m: Matcher): real
  {
    RatioOf(m(a, b), |a| + |b|)
  }

  /** `quick_ratio()`: the ratio bound from character multiplicities alone. */
  function QuickRatio(a: string, b: string): real
  {
    RatioOf(|multiset(a) * multiset(b)|, |a| + |b|)
  }

  /** `real_quick_ratio()`: the ratio bound from the lengths alone. */
  function RealQuickRatio(a: string, b: string): real
  {
    RatioOf(if |a| < |b| then |a| else |b|, |a| + |b|)
  }

  /** The three tests `get_close_matches` applies to candidate `x` against `word`, in order. */
  predicate PassesCutoff(x: string, word: string, m: Matcher)
  {
    RealQuickRatio(x, word) >= Cutoff && QuickRatio(x, word) >= Cutoff && Ratio(x, word, m) >= Cutoff
  }

  /** Python's `<` on strings: lexicographic by code point. */
  predicate StrLess(a: string, b: string)
  {
    if a == [] then b != []
    else if b == [] then false
    else if a[0] != b[0] then a[0] < b[0]
    else StrLess(a[1..], b[1..])
  }

  /** `heapq.nlargest` compares `(score, x)` tuples: higher score first, then the larger string. */
  predicate Outranks(x: string, y: string, word: string, m: Matcher)
  {
    Ratio(x, word, m) > Ratio(y, word, m) || (Ratio(x, word, m) == Ratio(y, word, m) && StrLess(y, x))
  }

  lemma {:induction false} StrLessIrreflexive(a: string)
    ensures !StrLess(a, a)
  {
    if a != [] {
      StrLessIrreflexive(a[1..]);
    }
  }

  lemma {:induction false} StrLessTransitive(a: string, b: string, c: string)
    requires StrLess(a, b) && StrLess(b, c)
    ensures StrLess(a, c)
  {
    if a != [] && b != [] && c != [] && a[0] == b[0] && b[0] == c[0] {
      StrLessTransitive(a[1..], b[1..], c[1..]);
    }
  }

  /** The candidate no other candidate outranks: what `nlargest(1, ...)` returns. */
  function Best(xs: seq<string>, word: string, m: Matcher): (b: string)
    requires xs != []
    ensures b in xs
    ensures forall x :: x in xs ==> !Outranks(x, b, word, m)
  {
    if |xs| == 1 then
      StrLessIrreflexive(xs[0]);
      xs[0]
    else
      var rest := Best(xs[1..], word, m);
      if Outranks(xs[0], rest, word, m) then
        forall x | x in xs ensures !Outranks(x, xs[0], word, m) {
          if x == xs[0] {
            StrLessIrreflexive(x);
          } else {
            assert x in xs[1..];
            if Outranks(x, xs[0], word, m) && StrLess(xs[0], x) && StrLess(rest, xs[0]) {
              StrLessTransitive(rest, xs[0], x);
            }
          }
        }
        xs[0]
      else
        rest
  }

  /** `get_close_matches(word, possibilities, n=1, cutoff=0.6)`. */
  function CloseMatches(word: string, possibilities: seq<string>, m: Matcher): (r: seq<string>)
    ensures |r| <= 1
    ensures r != [] <==> exists x :: x in possibilities && PassesCutoff(x, word, m)
    ensures r != [] ==> r[0] in possibilities && PassesCutoff(r[0], word, m)
    ensures r != [] ==> forall x :: x in possibilities && PassesCutoff(x, word, m) ==> !Outranks(x, r[0], word, m)
  {
    var result := Filter(possibilities, (x: string) => PassesCutoff(x, word, m));
    if result == [] then [] else [Best(result, word, m)]
  }

  // ------------------------------------------------------------- the filter

  datatype Verdict = Accepted | Rejected(words: seq<string>, message: string)

  /** The total number of characters in `words`. */
  function TotalLength(words: seq<string>): nat
  {
    if words == [] then 0 else |words[0]| + TotalLength(words[1..])
  }

  /** `w` sits in `s` starting at index `k`. */
  predicate OccursAt(w: string, s: string, k: int)
  {
    0 <= k && k + |w| <= |s| && s[k..k + |w|] == w
  }

  /** `sep.join(words)`: every word once, with one separator between neighbours. */
  function Join(words: seq<string>, sep: string): (r: string)
    ensures words == [] ==> r == []
    ensures words != [] ==> |r| == TotalLength(words) + (|words| - 1) * |sep|
  {
    if words == [] then []
    else if |words| == 1 then words[0]
    else words[0] + sep + Join(words[1..], sep)
  }

  /** Every joined word can be found in the joined string. */
  lemma {:induction false} JoinContains(words: seq<string>, sep: string, i: nat)
    requires i < |words|
    ensures exists k :: OccursAt(words[i], Join(words, sep), k)
  {
    var r := Join(words, sep);
    if i == 0 {
      if |words| == 1 {
        assert OccursAt(words[0], r, 0);
      } else {
        assert r == words[0] + (sep + Join(words[1..], sep));
        assert OccursAt(words[0], r, 0);
      }
    } else {
      var rest := Join(words[1..], sep);
      JoinContains(words[1..], sep, i - 1);
      var k :| OccursAt(words[1..][i - 1], rest, k);
      var pre := words[0] + sep;
      assert r == pre + rest;
      assert r[|pre| + k..|pre| + k + |words[i]|] == rest[k..k + |words[i]|];
      assert OccursAt(words[i], r, |pre| + k);
    }
  }

  /** Some token of `value` is close enough to the (lowercase) forbidden `word`. */
  ghost predicate Flagged(word: string, value: string, m: Matcher)
  {
    exists t :: t in TokenSet(value) && PassesCutoff(t, word, m)
  }

  /** `forbidden_words(value)` with the blocklist rows passed in. */
  function ForbiddenWords(value: string, blocklist: seq<string>, m: Matcher): (r: Verdict)
    ensures r.Rejected? <==> exists w :: w in ForbiddenSet(blocklist) && Flagged(w, value, m)
    ensures r.Rejected? ==> forall w :: w in r.words <==> w in ForbiddenSet(blocklist) && Flagged(w, value, m)
    ensures r.Rejected? ==> NoDuplicates(r.words) && r.message == Join(r.words, Separator) + Suffix
  {
    var words := Tokens(value);
    var forbidden := Dedup(LowerAll(blocklist));
    var restricted := Filter(forbidden, (item: string) => CloseMatches(item, words, m) != []);
    ForbiddenMembers(blocklist);
    forall w | w in forbidden ensures (CloseMatches(w, words, m) != []) == Flagged(w, value, m) {
      ClosestIffFlagged(w, value, m);
    }
    assert forall w :: w in restricted <==> w in ForbiddenSet(blocklist) && Flagged(w, value, m);
    if restricted != [] then
      FilterNoDuplicates(forbidden, (item: string) => CloseMatches(item, words, m) != []);
      assert restricted[0] in restricted;
      Rejected(restricted, Join(restricted, Separator) + Suffix)
    else
      Accepted
  }

  /** `get_close_matches` over the token set finds something exactly when the word is flagged. */
  lemma ClosestIffFlagged(word: string, value: string, m: Matcher)
    ensures (CloseMatches(word, Tokens(value), m) != []) == Flagged(word, value, m)
  {
    var words := Tokens(value);
    if Flagged(word, value, m) {
      var t :| t in TokenSet(value) && PassesCutoff(t, word, m);
      assert t in words;
    }
  }

  lemma ForbiddenMembers(blocklist: seq<string>)
    ensures forall w :: w in Dedup(LowerAll(blocklist)) <==> w in ForbiddenSet(blocklist)
  {
    forall w ensures w in LowerAll(blocklist) <==> w in ForbiddenSet(blocklist) {
      if w in LowerAll(blocklist) {
        var i :| 0 <= i < |blocklist| && LowerAll(blocklist)[i] == w;
        assert blocklist[i] in blocklist;
      }
      if w in ForbiddenSet(blocklist) {
        var b :| b in blocklist && Lower(b) == w;
        var i :| 0 <= i < |blocklist| && blocklist[i] == b;
        assert LowerAll(blocklist)[i] == w;
      }
    }
  }

  lemma {:induction false} FilterNoDuplicates<T(!new)>(s: seq<T>, f: T -> bool)
    requires NoDuplicates(s)
    ensures NoDuplicates(Filter(s, f))
  {
    if s != [] {
      assert NoDuplicates(s[1..]) by {
        forall i, j | 0 <= i < j < |s[1..]| ensures s[1..][i] != s[1..][j] {
          assert s[1..][i] == s[i + 1] && s[1..][j] == s[j + 1];
        }
      }
      FilterNoDuplicates(s[1..], f);
      var rest := Filter(s[1..], f);
      if f(s[0]) {
        assert s[0] !in s[1..];
        var r := [s[0]] + rest;
        forall i, j | 0 <= i < j < |r| ensures r[i] != r[j] {
          assert r[j] == rest[j - 1];
          if i > 0 { assert r[i] == rest[i - 1]; }
        }
      }
    }
  }

  // ------------------------------------------------------------ properties

  /** Splitting at a whitespace character splits the token list there. */
  lemma {:induction false} SplitFromAround(a: string, word: string, c: char, b: string)
    requires IsSpace(c)
    requires forall x :: x in word ==> !IsSpace(x)
    ensures SplitFrom(a + [c] + b, word) == SplitFrom(a, word) + SplitFrom(b, [])
    decreases |a|
  {
    if a == [] {
      assert a + [c] + b == [c] + b;
      assert ([c] + b)[1..] == b;
    } else {
      assert (a + [c] + b)[0] == a[0];
      assert (a + [c] + b)[1..] == a[1..] + [c] + b;
      if IsSpace(a[0]) {
        SplitFromAround(a[1..], [], c, b);
      } else {
        SplitFromAround(a[1..], word + [a[0]], c, b);
      }
    }
  }

  lemma SplitAround(a: string, c: char, b: string)
    requires IsSpace(c)
    ensures Split(a + [c] + b) == Split(a) + Split(b)
  {
    SplitFromAround(a, [], c, b);
  }

  lemma TokenSetAround(a: string, c: char, b: string)
    requires IsSpace(c)
    ensures TokenSet(a + [c] + b) == TokenSet(a) + TokenSet(b)
  {
    SplitAround(a, c, b);
  }

  /** Swapping two stretches of text or repeating one leaves the token set unchanged. */
  lemma TokenOrderAndRepetition(a: string, b: string)
    ensures TokenSet(a + " " + b) == TokenSet(b + " " + a)
    ensures TokenSet(a + " " + a) == TokenSet(a)
  {
    TokenSetAround(a, ' ', b);
    TokenSetAround(b, ' ', a);
    TokenSetAround(a, ' ', a);
  }


  /** A word of a joined list can still be found after a suffix is appended. */
  lemma JoinedWordBeforeSuffix(words: seq<string>, sep: string, suffix: string, i: nat)
    requires i < |words|
    ensures exists k :: OccursAt(words[i], Join(words, sep) + suffix, k)
  {
    JoinContains(words, sep, i);
    var joined := Join(words, sep);
    var k :| OccursAt(words[i], joined, k);
    assert (joined + suffix)[k..k + |words[i]|] == joined[k..k + |words[i]|];
    assert OccursAt(words[i], joined + suffix, k);
  }

  /** The rejection message names every reported word. */
  lemma MessageNamesWord(value: string, blocklist: seq<string>, m: Matcher, w: string)
    requires ForbiddenWords(value, blocklist, m).Rejected?
    requires w in ForbiddenWords(value, blocklist, m).words
    ensures exists k :: OccursAt(w, ForbiddenWords(value, blocklist, m).message, k)
  {
    var r := ForbiddenWords(value, blocklist, m);
    var i :| 0 <= i < |r.words| && r.words[i] == w;
    JoinedWordBeforeSuffix(r.words, Separator, Suffix, i);
  }

  /** The verdict depends on the text only through its token set. */
  lemma SameTokensSameVerdict(v1: string, v2: string, blocklist: seq<string>, m: Matcher)
    requires TokenSet(v1) == TokenSet(v2)
    ensures ForbiddenWords(v1, blocklist, m) == ForbiddenWords(v2, blocklist, m)
  {
    var forbidden := Dedup(LowerAll(blocklist));
    var f1 := (item: string) => CloseMatches(item, Tokens(v1), m) != [];
    var f2 := (item: string) => CloseMatches(item, Tokens(v2), m) != [];
    forall w | w in forbidden ensures f1(w) == f2(w) {
      ClosestIffFlagged(w, v1, m);
      ClosestIffFlagged(w, v2, m);
    }
    FilterAgrees(forbidden, f1, f2);
  }

  lemma LowerCharFacts(c: char)
    ensures IsSpace(LowerChar(c)) == IsSpace(c)
    ensures LowerChar(LowerChar(c)) == LowerChar(c)
  {
  }

  lemma {:induction false} LowerSplitFrom(s: string, word: string)
    requires forall x :: x in word ==> !IsSpace(x)
    ensures forall x :: x in Lower(word) ==> !IsSpace(x)
    ensures SplitFrom(Lower(s), Lower(word)) == LowerAll(SplitFrom(s, word))
    decreases |s|
  {
    forall x | x in Lower(word) ensures !IsSpace(x) {
      var i :| 0 <= i < |Lower(word)| && Lower(word)[i] == x;
      LowerCharFacts(word[i]);
    }
    if s == [] {
      assert Lower(s) == [];
    } else {
      var ls := Lower(s);
      assert ls[0] == LowerChar(s[0]) && ls[1..] == Lower(s[1..]);
      LowerCharFacts(s[0]);
      if IsSpace(s[0]) {
        LowerSplitFrom(s[1..], []);
        assert Lower([]) == [];
        var head := if word == [] then [] else [word];
        assert LowerAll(head + SplitFrom(s[1..], [])) == LowerAll(head) + LowerAll(SplitFrom(s[1..], []));
        assert Lower(word) == [] <==> word == [];
      } else {
        assert Lower(word + [s[0]]) == Lower(word) + [LowerChar(s[0])];
        LowerSplitFrom(s[1..], word + [s[0]]);
      }
    }
  }

  lemma {:induction false} LowerIdempotent(s: string)
    ensures Lower(Lower(s)) == Lower(s)
  {
    forall i | 0 <= i < |s| ensures Lower(Lower(s))[i] == Lower(s)[i] {
      LowerCharFacts(s[i]);
    }
  }

  /** Lowercasing the text first changes nothing: the tokens are lowercased anyway. */
  lemma TokenSetIgnoresCase(v: string)
    ensures TokenSet(Lower(v)) == TokenSet(v)
  {
    LowerSplitFrom(v, []);
    assert Lower([]) == [];
    var ws := Split(v);
    forall t ensures t in TokenSet(Lower(v)) <==> t in TokenSet(v) {
      if t in TokenSet(Lower(v)) {
        var lw :| lw in LowerAll(ws) && Lower(lw) == t;
        var i :| 0 <= i < |ws| && LowerAll(ws)[i] == lw;
        LowerIdempotent(ws[i]);
        assert ws[i] in ws;
      }
      if t in TokenSet(v) {
        var w :| w in ws && Lower(w) == t;
        var i :| 0 <= i < |ws| && ws[i] == w;
        LowerIdempotent(w);
        assert LowerAll(ws)[i] in LowerAll(ws);
      }
    }
  }

  /** Validation is case-insensitive on both sides: texts and blocklists that agree up to case give the same verdict. */
  lemma CaseInsensitive(v1: string, v2: string, bl1: seq<string>, bl2: seq<string>, m: Matcher)
    requires Lower(v1) == Lower(v2)
    requires LowerAll(bl1) == LowerAll(bl2)
    ensures ForbiddenWords(v1, bl1, m) == ForbiddenWords(v2, bl2, m)
  {
    TokenSetIgnoresCase(v1);
    TokenSetIgnoresCase(v2);
    SameTokensSameVerdict(v1, v2, bl1, m);
  }

  /** Text without a single word, and an empty blocklist, always pass. */
  lemma NothingToMatchPasses(value: string, blocklist: seq<string>, m: Matcher)
    requires (forall c :: c in value ==> IsSpace(c)) || blocklist == []
    ensures ForbiddenWords(value, blocklist, m) == Accepted
  {
    SplitEmptyIff(value);
    if Split(value) == [] {
      assert TokenSet(value) == {};
    } else {
      assert ForbiddenSet(blocklist) == {};
    }
  }

  lemma MultisetSelfIntersection(x: string)
    ensures multiset(x) * multiset(x) == multiset(x)
  {
  }

  /** A string passes the cutoff against itself when difflib matches it completely. */
  lemma SelfMatchPasses(x: string, m: Matcher)
    requires ValidMatcher(m) && |x| < AutojunkMinLength
    ensures PassesCutoff(x, x, m)
  {
    MultisetSelfIntersection(x);
    assert |multiset(x)| == |x|;
    if |x| > 0 {
      RatioThreshold(|x|, |x| + |x|);
    }
  }

  /** A token equal to a blocklist word up to case always causes rejection, and that word is reported. */
  lemma ExactTokenRejected(value: string, blocklist: seq<string>, w: string, m: Matcher)
    requires ValidMatcher(m)
    requires w in blocklist && |w| < AutojunkMinLength
    requires exists t :: t in Split(value) && Lower(t) == Lower(w)
    ensures ForbiddenWords(value, blocklist, m).Rejected?
    ensures Lower(w) in ForbiddenWords(value, blocklist, m).words
  {
    var t :| t in Split(value) && Lower(t) == Lower(w);
    assert Lower(t) in TokenSet(value);
    SelfMatchPasses(Lower(w), m);
    assert Flagged(Lower(w), value, m);
    assert Lower(w) in ForbiddenSet(blocklist);
  }

  /** The set of words a verdict reports. */
  ghost function Reported(r: Verdict): set<string>
  {
    if r.Rejected? then set w | w in r.words else {}
  }

  /** Adding words to the blocklist can only grow the reported set. */
  lemma BlocklistMonotone(value: string, bl1: seq<string>, bl2: seq<string>, m: Matcher)
    requires forall w :: w in bl1 ==> w in bl2
    ensures Reported(ForbiddenWords(value, bl1, m)) <= Reported(ForbiddenWords(value, bl2, m))
  {
    var r1 := ForbiddenWords(value, bl1, m);
    var r2 := ForbiddenWords(value, bl2, m);
    assert ForbiddenSet(bl1) <= ForbiddenSet(bl2);
    if r1.Rejected? {
      var w :| w in r1.words;
      assert w in ForbiddenSet(bl2) && Flagged(w, value, m);
    }
  }

  lemma {:induction false} IntersectionBound(a: string, b: string)
    ensures |multiset(a) * multiset(b)| <= |a|
  {
    var ma, mb := multiset(a), multiset(b);
    assert ma * mb <= ma;
    assert |ma| == |a|;
    var d := ma - ma * mb;
    assert ma == (ma * mb) + d;
  }

  /**
   * Under difflib's guarantees the two upper-bound pre-checks never reject
   * a candidate the exact ratio accepts, so a candidate passes exactly when
   * 2*M/(|x|+|word|) >= 0.6, that is when 10*M >= 3*(|x|+|word|).
   */
  lemma CutoffIsRatioTest(x: string, word: string, m: Matcher)
    requires ValidMatcher(m)
    ensures PassesCutoff(x, word, m) <==> 10 * m(x, word) >= 3 * (|x| + |word|)
  {
    var len := |x| + |word|;
    var inter := |multiset(x) * multiset(word)|;
    IntersectionBound(x, word);
    IntersectionBound(word, x);
    assert multiset(word) * multiset(x) == multiset(x) * multiset(word);
    var least := if |x| < |word| then |x| else |word|;
    assert m(x, word) <= inter <= least;
    if len > 0 {
      RatioThreshold(m(x, word), len);
      RatioThreshold(inter, len);
      RatioThreshold(least, len);
    }
  }

  lemma RatioThreshold(matches: nat, length: nat)
    requires length > 0
    ensures RatioOf(matches, length) >= Cutoff <==> 10 * matches >= 3 * length
  {
    var q := RatioOf(matches, length);
    var len := length as real;
    assert q * len == 2.0 * (matches as real);
    assert (q - Cutoff) * len == 2.0 * (matches as real) - Cutoff * len;
    if q >= Cutoff {
      assert (q - Cutoff) * len >= 0.0;
    } else {
      assert (q - Cutoff) * len < 0.0;
    }
  }
}
