/**
 * The string operations the frontend and the scripts rely on: JavaScript's
 * `trim`, `toLowerCase` and `includes`, Python's `strip`, `split`, `replace`,
 * `lower` and `" ".join`, the regular-expression rewrite `\s+ -> " "`, and
 * decimal rendering and reading of whole numbers.
 */
module Strings {
  import opened Seqs

  /** The whitespace characters of the model (the ASCII ones). */
  predicate IsWhitespace(c: char) {
    c == ' ' || c == '\t' || c == '\n' || c == '\r' || c == '\U{0B}' || c == '\U{0C}'
  }

  predicate IsDigit(c: char) {
    '0' <= c <= '9'
  }

  predicate AllWhitespace(s: string) {
    forall i :: 0 <= i < |s| ==> IsWhitespace(s[i])
  }

  predicate HasNoWhitespace(s: string) {
    forall i :: 0 <= i < |s| ==> !IsWhitespace(s[i])
  }

  predicate AllDigits(s: string) {
    forall i :: 0 <= i < |s| ==> IsDigit(s[i])
  }

  /** The non-whitespace characters of `s`, in order. */
  function NonWhitespace(s: string): string {
    Filter((c: char) => !IsWhitespace(c), s)
  }

  // ---------------------------------------------------------------------------
  // Case folding

  /** The capitals the model folds: ASCII `A`-`Z` and the Latin-1 capitals `À`-`Þ` except `×`. */
  predicate IsUpper(c: char) {
    'A' <= c <= 'Z' || ('\U{C0}' <= c <= '\U{DE}' && c != '\U{D7}')
  }

  /** Lower-casing of one character: a capital becomes its small letter, 32 code points on. */
  function LowerChar(c: char): (r: char)
    ensures !IsUpper(r)
    ensures IsUpper(c) ==> r as int == c as int + 32
    ensures !IsUpper(c) ==> r == c
    ensures IsWhitespace(r) <==> IsWhitespace(c)
  {
    if IsUpper(c) then (c as int + 32) as char else c
  }

  /** `toLowerCase()` and Python `lower()`: no capital is left, and every other character stays. */
  function Lower(s: string): (r: string)
    ensures |r| == |s|
    ensures forall i :: 0 <= i < |r| ==> !IsUpper(r[i])
    ensures forall i :: 0 <= i < |s| && !IsUpper(s[i]) ==> r[i] == s[i]
    ensures forall i :: 0 <= i < |s| && IsUpper(s[i]) ==> r[i] as int == s[i] as int + 32
  {
    seq(|s|, i requires 0 <= i < |s| => LowerChar(s[i]))
  }

  /** Lower-casing a lower-cased text changes nothing. */
  lemma LowerIdempotent(s: string)
    ensures Lower(Lower(s)) == Lower(s)
  {
  }

  // ---------------------------------------------------------------------------
  // Prefixes and substrings

  predicate StartsWith(s: string, prefix: string) {
    |prefix| <= |s| && s[..|prefix|] == prefix
  }

  /** `needle` occurs somewhere in `s` (JavaScript `includes`, Python `in`). */
  predicate Contains(s: string, needle: string)
    decreases |s|
  {
    StartsWith(s, needle) || (s != [] && Contains(s[1..], needle))
  }

  // ---------------------------------------------------------------------------
  // Trimming

  /** `s` without its leading whitespace. */
  function TrimStart(s: string): (r: string)
    ensures |r| <= |s| && r == s[|s| - |r|..]
    ensures AllWhitespace(s[..|s| - |r|])
    ensures r == [] || !IsWhitespace(r[0])
    ensures s != [] && IsWhitespace(s[0]) ==> |r| < |s|
  {
    if s != [] && IsWhitespace(s[0]) then TrimStart(s[1..]) else s
  }

  /** `s` without its trailing whitespace. */
  function TrimEnd(s: string): (r: string)
    ensures |r| <= |s| && r == s[..|r|]
    ensures AllWhitespace(s[|r|..])
    ensures r == [] || !IsWhitespace(r[|r| - 1])
  {
    if s != [] && IsWhitespace(s[|s| - 1]) then TrimEnd(s[..|s| - 1]) else s
  }

  /** Python `str.strip()` and JavaScript `String.prototype.trim()`. */
  function Strip(s: string): (r: string)
    ensures r == [] || (!IsWhitespace(r[0]) && !IsWhitespace(r[|r| - 1]))
    ensures r == [] <==> AllWhitespace(s)
    ensures |r| <= |s|
  {
    var t := TrimStart(s);
    var r := TrimEnd(t);
    assert r != [] ==> r[0] == t[0];
    assert AllWhitespace(s) ==> t == [];
    assert t == [] ==> AllWhitespace(s) by {
      if t == [] {
        assert s[..|s|] == s;
      }
    }
    r
  }

  /** `strip` removes only a whitespace prefix and a whitespace suffix. */
  lemma StripParts(s: string) returns (lead: string, tail: string)
    ensures s == lead + Strip(s) + tail
    ensures AllWhitespace(lead) && AllWhitespace(tail)
  {
    var t := TrimStart(s);
    var r := TrimEnd(t);
    var k := |s| - |t|;
    assert Strip(s) == r == s[k..k + |r|];
    lead, tail := s[..k], s[k + |r|..];
    assert tail == t[|r|..];
    SplitThree(s, k, k + |r|);
  }

  lemma StripUnchanged(s: string)
    requires s == [] || (!IsWhitespace(s[0]) && !IsWhitespace(s[|s| - 1]))
    ensures Strip(s) == s
  {
    assert TrimStart(s) == s;
  }

  /** `strip` leaves the non-whitespace characters as they were. */
  lemma StripKeepsNonWhitespace(s: string)
    ensures NonWhitespace(Strip(s)) == NonWhitespace(s)
  {
    var lead, tail := StripParts(s);
    NonWhitespaceAppend(lead + Strip(s), tail);
    NonWhitespaceAppend(lead, Strip(s));
    NonWhitespaceOfWhitespace(lead);
    NonWhitespaceOfWhitespace(tail);
  }

  // ---------------------------------------------------------------------------
  // Whitespace runs

  /** Every whitespace character is a plain space and no two whitespace characters are adjacent. */
  predicate IsCollapsed(s: string) {
    && (forall i :: 0 <= i < |s| && IsWhitespace(s[i]) ==> s[i] == ' ')
    && (forall i :: 0 <= i < |s| - 1 ==> !(IsWhitespace(s[i]) && IsWhitespace(s[i + 1])))
  }

  /** The rewrite `re.sub(r'\s+', ' ', s)`: each maximal whitespace run becomes one space. */
  function CollapseWhitespace(s: string): string
    decreases |s|
  {
    if s == [] then []
    else if IsWhitespace(s[0]) then " " + CollapseWhitespace(TrimStart(s))
    else [s[0]] + CollapseWhitespace(s[1..])
  }

  /**
   * The collapsed text is empty only for empty input, starts and ends with
   * whitespace exactly where the input does, keeps a non-whitespace first
   * and last character, and has no whitespace but single spaces.
   */
  lemma CollapseWhitespaceFacts(s: string)
    ensures CollapseWhitespace(s) == [] <==> s == []
    ensures s != [] ==> (IsWhitespace(CollapseWhitespace(s)[0]) <==> IsWhitespace(s[0]))
    ensures s != [] && !IsWhitespace(s[0]) ==> CollapseWhitespace(s)[0] == s[0]
    ensures s != [] && !IsWhitespace(s[|s| - 1]) ==> CollapseWhitespace(s)[|CollapseWhitespace(s)| - 1] == s[|s| - 1]
    ensures s != [] && IsWhitespace(s[|s| - 1]) ==> IsWhitespace(CollapseWhitespace(s)[|CollapseWhitespace(s)| - 1])
    ensures IsCollapsed(CollapseWhitespace(s))
  {
    CollapseFirst(s);
    CollapseLast(s);
    CollapseIsCollapsed(s);
  }

  lemma CollapseFirst(s: string)
    ensures CollapseWhitespace(s) == [] <==> s == []
    ensures s != [] ==> (IsWhitespace(CollapseWhitespace(s)[0]) <==> IsWhitespace(s[0]))
    ensures s != [] && !IsWhitespace(s[0]) ==> CollapseWhitespace(s)[0] == s[0]
  {
  }

  lemma {:induction false} CollapseLast(s: string)
    ensures s != [] && !IsWhitespace(s[|s| - 1]) ==> CollapseWhitespace(s)[|CollapseWhitespace(s)| - 1] == s[|s| - 1]
    ensures s != [] && IsWhitespace(s[|s| - 1]) ==> IsWhitespace(CollapseWhitespace(s)[|CollapseWhitespace(s)| - 1])
    decreases |s|
  {
    if s != [] {
      var rest := if IsWhitespace(s[0]) then TrimStart(s) else s[1..];
      CollapseLast(rest);
      CollapseFirst(rest);
      assert rest != [] ==> rest[|rest| - 1] == s[|s| - 1];
      if rest == [] {
        assert |s| == 1 || IsWhitespace(s[0]);
        assert s[|s| - 1] in s[..|s| - |rest|] || |s| == 1;
      }
    }
  }

  lemma {:induction false} CollapseIsCollapsed(s: string)
    ensures IsCollapsed(CollapseWhitespace(s))
    decreases |s|
  {
    if s != [] {
      var rest := if IsWhitespace(s[0]) then TrimStart(s) else s[1..];
      CollapseIsCollapsed(rest);
      CollapseFirst(rest);
      if IsWhitespace(s[0]) {
        CollapsedCons(' ', CollapseWhitespace(rest));
      } else {
        CollapsedCons(s[0], CollapseWhitespace(rest));
      }
    }
  }

  /** A character in front of a collapsed text keeps it collapsed unless it starts a second whitespace. */
  lemma CollapsedCons(c: char, x: string)
    requires IsCollapsed(x)
    requires IsWhitespace(c) ==> c == ' ' && (x == [] || !IsWhitespace(x[0]))
    ensures IsCollapsed([c] + x)
  {
    var r := [c] + x;
    forall i | 0 <= i < |r| - 1 ensures !(IsWhitespace(r[i]) && IsWhitespace(r[i + 1])) {
      if i > 0 {
        assert r[i] == x[i - 1] && r[i + 1] == x[i];
      }
    }
    forall i | 0 <= i < |r| && IsWhitespace(r[i]) ensures r[i] == ' ' {
      if i > 0 {
        assert r[i] == x[i - 1];
      }
    }
  }

  lemma NonWhitespaceAppend(a: string, b: string)
    ensures NonWhitespace(a + b) == NonWhitespace(a) + NonWhitespace(b)
  {
    FilterAppend((c: char) => !IsWhitespace(c), a, b);
  }

  lemma NonWhitespaceOfWhitespace(a: string)
    requires AllWhitespace(a)
    ensures NonWhitespace(a) == []
  {
    FilterNone((c: char) => !IsWhitespace(c), a);
  }

  /** Collapsing keeps every non-whitespace character, in order. */
  lemma {:induction false} CollapseKeepsNonWhitespace(s: string)
    ensures NonWhitespace(CollapseWhitespace(s)) == NonWhitespace(s)
    decreases |s|
  {
    if s != [] {
      if IsWhitespace(s[0]) {
        var t := TrimStart(s);
        CollapseKeepsNonWhitespace(t);
        CollapseRunStep(s, t);
      } else {
        CollapseKeepsNonWhitespace(s[1..]);
        CollapseCharStep(s);
      }
    }
  }

  lemma CollapseRunStep(s: string, t: string)
    requires s != [] && IsWhitespace(s[0]) && t == TrimStart(s)
    requires NonWhitespace(CollapseWhitespace(t)) == NonWhitespace(t)
    ensures NonWhitespace(CollapseWhitespace(s)) == NonWhitespace(s)
  {
    UnfoldRun(s);
    DropLeadingWhitespace(s);
    SpacePrefix(CollapseWhitespace(t));
  }

  lemma UnfoldRun(s: string)
    requires s != [] && IsWhitespace(s[0])
    ensures CollapseWhitespace(s) == " " + CollapseWhitespace(TrimStart(s))
  {
  }

  lemma DropLeadingWhitespace(s: string)
    ensures NonWhitespace(TrimStart(s)) == NonWhitespace(s)
  {
    var t := TrimStart(s);
    var k := |s| - |t|;
    assert s == s[..k] + t;
    NonWhitespaceAppend(s[..k], t);
    NonWhitespaceOfWhitespace(s[..k]);
  }

  lemma SpacePrefix(x: string)
    ensures NonWhitespace(" " + x) == NonWhitespace(x)
  {
    NonWhitespaceAppend(" ", x);
    NonWhitespaceOfWhitespace(" ");
  }

  lemma CollapseCharStep(s: string)
    requires s != [] && !IsWhitespace(s[0])
    requires NonWhitespace(CollapseWhitespace(s[1..])) == NonWhitespace(s[1..])
    ensures NonWhitespace(CollapseWhitespace(s)) == NonWhitespace(s)
  {
    assert s == [s[0]] + s[1..];
    assert CollapseWhitespace(s) == [s[0]] + CollapseWhitespace(s[1..]);
    NonWhitespaceAppend([s[0]], s[1..]);
    NonWhitespaceAppend([s[0]], CollapseWhitespace(s[1..]));
  }

  /** A string that is already collapsed is left as it is. */
  lemma {:induction false} CollapseCollapsed(s: string)
    requires IsCollapsed(s)
    ensures CollapseWhitespace(s) == s
    decreases |s|
  {
    if s != [] {
      assert IsCollapsed(s[1..]);
      if IsWhitespace(s[0]) {
        assert |s| > 1 ==> !IsWhitespace(s[1]);
        assert TrimStart(s) == s[1..];
        CollapseCollapsed(s[1..]);
        assert s == " " + s[1..];
      } else {
        CollapseCollapsed(s[1..]);
        assert s == [s[0]] + s[1..];
      }
    }
  }

  // ---------------------------------------------------------------------------
  // Splitting and joining

  /** Python `str.split()` without arguments: the maximal non-whitespace runs. */
  function SplitWhitespace(s: string): (parts: seq<string>)
    ensures forall i :: 0 <= i < |parts| ==> parts[i] != [] && HasNoWhitespace(parts[i])
  {
    SplitWords(s, [])
  }

  /** The runs of `s`, where `word` is the run read just before `s`. */
  function SplitWords(s: string, word: string): (parts: seq<string>)
    requires HasNoWhitespace(word)
    ensures forall i :: 0 <= i < |parts| ==> parts[i] != [] && HasNoWhitespace(parts[i])
    decreases |s|
  {
    if s == [] then
      (if word == [] then [] else [word])
    else if IsWhitespace(s[0]) then
      (if word == [] then [] else [word]) + SplitWords(s[1..], [])
    else
      SplitWords(s[1..], word + [s[0]])
  }

  /** `split()` finds no token exactly when the text is all whitespace. */
  lemma SplitWhitespaceEmpty(s: string)
    ensures SplitWhitespace(s) == [] <==> AllWhitespace(s)
  {
    SplitWordsEmpty(s, []);
  }

  lemma {:induction false} SplitWordsEmpty(s: string, word: string)
    requires HasNoWhitespace(word)
    ensures SplitWords(s, word) == [] <==> word == [] && AllWhitespace(s)
    decreases |s|
  {
    if s != [] {
      if IsWhitespace(s[0]) {
        SplitWordsEmpty(s[1..], []);
        assert AllWhitespace(s) <==> AllWhitespace(s[1..]) by {
          assert forall i :: 1 <= i < |s| ==> s[i] == s[1..][i - 1];
        }
      } else {
        SplitWordsEmpty(s[1..], word + [s[0]]);
      }
    }
  }

  /** Python `sep.join(parts)`. */
  function Join(sep: string, parts: seq<string>): (r: string)
    ensures parts != [] ==> StartsWith(r, parts[0])
  {
    if parts == [] then []
    else if |parts| == 1 then parts[0]
    else parts[0] + sep + Join(sep, parts[1..])
  }

  // ---------------------------------------------------------------------------
  // Collapsing whitespace is joining the words

  /** Leading whitespace never starts a word. */
  lemma {:induction false} SplitWordsSkipsWhitespace(a: string, b: string)
    requires AllWhitespace(a)
    ensures SplitWords(a + b, []) == SplitWords(b, [])
    decreases |a|
  {
    if a != [] {
      assert (a + b)[0] == a[0];
      assert (a + b)[1..] == a[1..] + b;
      SplitWordsSkipsWhitespace(a[1..], b);
    } else {
      assert a + b == b;
    }
  }

  /** Trailing whitespace only ends the word being read. */
  lemma {:induction false} SplitWordsIgnoresTail(x: string, word: string, b: string)
    requires HasNoWhitespace(word) && AllWhitespace(b)
    ensures SplitWords(x + b, word) == SplitWords(x, word)
    decreases |x|
  {
    if x == [] {
      assert x + b == b;
      if b != [] {
        assert AllWhitespace(b[1..]) by {
          assert forall i :: 0 <= i < |b[1..]| ==> b[1..][i] == b[i + 1];
        }
        SplitWordsEmpty(b[1..], []);
      }
    } else {
      assert (x + b)[0] == x[0];
      assert (x + b)[1..] == x[1..] + b;
      if IsWhitespace(x[0]) {
        SplitWordsIgnoresTail(x[1..], [], b);
      } else {
        SplitWordsIgnoresTail(x[1..], word + [x[0]], b);
      }
    }
  }

  /** Whitespace around a text does not change its words. */
  lemma SplitWordsOfPadded(lead: string, m: string, tail: string)
    requires AllWhitespace(lead) && AllWhitespace(tail)
    ensures SplitWords(lead + m + tail, []) == SplitWords(m, [])
  {
    assert lead + m + tail == lead + (m + tail);
    SplitWordsSkipsWhitespace(lead, m + tail);
    SplitWordsIgnoresTail(m, [], tail);
  }

  /** `split()` does not see the whitespace `strip()` removes. */
  lemma SplitWhitespaceOfStrip(s: string)
    ensures SplitWhitespace(Strip(s)) == SplitWhitespace(s)
  {
    var lead, tail := StripParts(s);
    SplitWordsOfPadded(lead, Strip(s), tail);
  }

  /**
   * On a text that does not end in whitespace, collapsing the runs after the
   * partly read `word` gives the words joined by single spaces.
   */
  lemma {:induction false} CollapseIsJoinedWords(t: string, word: string)
    requires HasNoWhitespace(word)
    requires t == [] || !IsWhitespace(t[|t| - 1])
    requires word != [] || t == [] || !IsWhitespace(t[0])
    ensures word + CollapseWhitespace(t) == Join(" ", SplitWords(t, word))
    decreases |t|
  {
    if t == [] {
      assert word + CollapseWhitespace(t) == word;
    } else if !IsWhitespace(t[0]) {
      var w := word + [t[0]];
      assert HasNoWhitespace(w);
      assert |t| > 1 ==> t[1..][|t| - 2] == t[|t| - 1];
      CollapseIsJoinedWords(t[1..], w);
      CollapseJoinedWordStep(t, word);
    } else {
      TrimStartKeepsLast(t);
      CollapseIsJoinedWords(TrimStart(t), []);
      CollapseJoinedSpaceStep(t, word);
    }
  }

  /** The step of `CollapseIsJoinedWords` over a character of a word. */
  lemma CollapseJoinedWordStep(t: string, word: string)
    requires t != [] && !IsWhitespace(t[0]) && HasNoWhitespace(word) && HasNoWhitespace(word + [t[0]])
    requires (word + [t[0]]) + CollapseWhitespace(t[1..]) == Join(" ", SplitWords(t[1..], word + [t[0]]))
    ensures word + CollapseWhitespace(t) == Join(" ", SplitWords(t, word))
  {
    CollapseAtWord(t);
    SplitWordsAtWord(t, word);
    AppendAssoc(word, [t[0]], CollapseWhitespace(t[1..]));
  }

  /** The step of `CollapseIsJoinedWords` over a whitespace run that ends the word. */
  lemma CollapseJoinedSpaceStep(t: string, word: string)
    requires t != [] && IsWhitespace(t[0]) && HasNoWhitespace(word) && word != []
    requires TrimStart(t) != []
    requires CollapseWhitespace(TrimStart(t)) == Join(" ", SplitWords(TrimStart(t), []))
    ensures word + CollapseWhitespace(t) == Join(" ", SplitWords(t, word))
  {
    var u := TrimStart(t);
    CollapseAtWhitespace(t);
    SplitWordsAtWhitespace(t, word);
    SplitWordsEmpty(u, []);
    JoinCons(" ", word, SplitWords(u, []));
    AppendAssoc(word, " ", CollapseWhitespace(u));
  }

  lemma CollapseAtWord(t: string)
    requires t != [] && !IsWhitespace(t[0])
    ensures CollapseWhitespace(t) == [t[0]] + CollapseWhitespace(t[1..])
  {
  }

  lemma CollapseAtWhitespace(t: string)
    requires t != [] && IsWhitespace(t[0])
    ensures CollapseWhitespace(t) == " " + CollapseWhitespace(TrimStart(t))
  {
  }

  lemma SplitWordsAtWord(t: string, word: string)
    requires t != [] && !IsWhitespace(t[0]) && HasNoWhitespace(word) && HasNoWhitespace(word + [t[0]])
    ensures SplitWords(t, word) == SplitWords(t[1..], word + [t[0]])
  {
  }

  /** A whitespace run ends the word being read and starts no word of its own. */
  lemma SplitWordsAtWhitespace(t: string, word: string)
    requires t != [] && IsWhitespace(t[0]) && HasNoWhitespace(word) && word != []
    ensures SplitWords(t, word) == [word] + SplitWords(TrimStart(t), [])
  {
    var u := TrimStart(t);
    var k := |t| - |u|;
    assert t[1..] == t[1..k] + u;
    assert AllWhitespace(t[1..k]) by {
      assert forall i :: 0 <= i < k - 1 ==> t[1..k][i] == t[..k][i + 1];
    }
    SplitWordsSkipsWhitespace(t[1..k], u);
  }

  lemma JoinCons(sep: string, w: string, parts: seq<string>)
    requires parts != []
    ensures Join(sep, [w] + parts) == w + sep + Join(sep, parts)
  {
    assert ([w] + parts)[1..] == parts;
  }

  lemma AppendAssoc(a: string, b: string, c: string)
    ensures a + (b + c) == (a + b) + c
  {
  }

  /** A text that ends in a non-whitespace character keeps that character when its lead is trimmed. */
  lemma {:induction false} TrimStartKeepsLast(t: string)
    requires t != [] && !IsWhitespace(t[|t| - 1])
    ensures TrimStart(t) != [] && TrimStart(t)[|TrimStart(t)| - 1] == t[|t| - 1]
    decreases |t|
  {
    if IsWhitespace(t[0]) {
      assert |t| > 1;
      assert t[1..][|t| - 2] == t[|t| - 1];
      TrimStartKeepsLast(t[1..]);
    }
  }

  /** A text with no whitespace at either end collapses to its words joined by single spaces. */
  lemma CollapseTrimmedIsJoinedWords(t: string)
    requires t == [] || (!IsWhitespace(t[0]) && !IsWhitespace(t[|t| - 1]))
    ensures CollapseWhitespace(t) == Join(" ", SplitWhitespace(t))
  {
    CollapseIsJoinedWords(t, []);
    EmptyAppend(CollapseWhitespace(t));
  }

  lemma EmptyAppend(x: string)
    ensures [] + x == x
  {
  }

  /** Python's `" ".join(s.split())`: the stripped text with every run collapsed. */
  lemma CollapseStrippedIsJoinedWords(s: string)
    ensures CollapseWhitespace(Strip(s)) == Join(" ", SplitWhitespace(s))
  {
    var i, j := StripBounds(s);
    CollapseInnerIsJoinedWords(s, i, j);
  }

  /** The text between leading and trailing whitespace collapses to the words of the whole text. */
  lemma CollapseInnerIsJoinedWords(s: string, i: nat, j: nat)
    requires i <= j <= |s| && AllWhitespace(s[..i]) && AllWhitespace(s[j..])
    requires i < j ==> !IsWhitespace(s[i]) && !IsWhitespace(s[j - 1])
    ensures CollapseWhitespace(s[i..j]) == Join(" ", SplitWhitespace(s))
  {
    SplitThree(s, i, j);
    SplitWordsOfPadded(s[..i], s[i..j], s[j..]);
    CollapseTrimmedIsJoinedWords(s[i..j]);
  }

  /** Stripping a whitespace prefix off a text that then starts with a word. */
  lemma {:induction false} TrimStartOfPadded(a: string, b: string)
    requires AllWhitespace(a) && (b == [] || !IsWhitespace(b[0]))
    ensures TrimStart(a + b) == b
    decreases |a|
  {
    if a == [] {
      assert a + b == b;
    } else {
      assert (a + b)[1..] == a[1..] + b;
      TrimStartOfPadded(a[1..], b);
    }
  }

  lemma {:induction false} TrimEndOfPadded(m: string, b: string)
    requires AllWhitespace(b) && (m == [] || !IsWhitespace(m[|m| - 1]))
    ensures TrimEnd(m + b) == m
    decreases |b|
  {
    if b == [] {
      assert m + b == m;
    } else {
      var b' := b[..|b| - 1];
      assert (m + b)[..|m + b| - 1] == m + b';
      TrimEndOfPadded(m, b');
    }
  }

  /** `strip` of a text between whitespace is that text, when it has no whitespace at its ends. */
  lemma StripOfPadded(x: string, a: string, m: string, b: string)
    requires x == a + m + b && AllWhitespace(a) && AllWhitespace(b)
    requires m != [] && !IsWhitespace(m[0]) && !IsWhitespace(m[|m| - 1])
    ensures Strip(x) == m
  {
    AppendAssoc(a, m, b);
    TrimStartOfPadded(a, m + b);
    TrimEndOfPadded(m, b);
  }

  /** Collapsing a text that ends in a non-whitespace character, then more text, works piece by piece. */
  lemma {:induction false} CollapseAppend(x: string, y: string)
    requires x == [] || !IsWhitespace(x[|x| - 1])
    ensures CollapseWhitespace(x + y) == CollapseWhitespace(x) + CollapseWhitespace(y)
    decreases |x|
  {
    if x == [] {
      assert x + y == y;
    } else if !IsWhitespace(x[0]) {
      var x1 := x[1..];
      assert (x + y)[1..] == x1 + y;
      assert |x| > 1 ==> x1[|x1| - 1] == x[|x| - 1];
      CollapseAppend(x1, y);
      CollapseAtWord(x + y);
      CollapseAtWord(x);
      AppendAssoc([x[0]], CollapseWhitespace(x1), CollapseWhitespace(y));
    } else {
      var u := TrimStart(x);
      TrimStartKeepsLast(x);
      CollapseAppend(u, y);
      CollapseAppendSpaceStep(x, y, u);
    }
  }

  /** The step of `CollapseAppend` over the whitespace run that starts `x`. */
  lemma CollapseAppendSpaceStep(x: string, y: string, u: string)
    requires x != [] && IsWhitespace(x[0]) && u == TrimStart(x) && u != []
    requires CollapseWhitespace(u + y) == CollapseWhitespace(u) + CollapseWhitespace(y)
    ensures CollapseWhitespace(x + y) == CollapseWhitespace(x) + CollapseWhitespace(y)
  {
    var k := |x| - |u|;
    var lead := x[..k];
    assert u == x[k..];
    SplitTwo(x, k);
    AppendAssoc(lead, u, y);
    TrimStartOfPadded(lead, u + y);
    CollapseAtWhitespace(x + y);
    CollapseAtWhitespace(x);
    AppendAssoc(" ", CollapseWhitespace(u), CollapseWhitespace(y));
  }

  /** A non-empty whitespace run collapses to one space. */
  lemma CollapseAllWhitespace(a: string)
    requires a != [] && AllWhitespace(a)
    ensures CollapseWhitespace(a) == " "
  {
    TrimStartOfPadded(a, []);
    assert a + [] == a;
  }

  /** A word with whitespace around it collapses to the collapsed word with at most one space on each side. */
  lemma CollapsePadded(lead: string, m: string, tail: string)
    requires AllWhitespace(lead) && AllWhitespace(tail)
    requires m != [] && !IsWhitespace(m[0]) && !IsWhitespace(m[|m| - 1])
    ensures CollapseWhitespace(lead + m + tail)
         == (if lead == [] then [] else " ") + CollapseWhitespace(m) + (if tail == [] then [] else " ")
  {
    var x := lead + m;
    assert x[|x| - 1] == m[|m| - 1];
    CollapseAppend(x, tail);
    var c := CollapseWhitespace(m);
    var pre := if lead == [] then [] else " ";
    var post := if tail == [] then [] else " ";
    if lead != [] {
      TrimStartOfPadded(lead, m);
      assert CollapseWhitespace(x) == " " + c;
    } else {
      assert x == m;
    }
    if tail != [] {
      CollapseAllWhitespace(tail);
    } else {
      assert CollapseWhitespace(tail) == [];
    }
    assert CollapseWhitespace(x) == pre + c;
  }

  /** Stripping the collapsed padded word gives the collapsed word. */
  lemma StripCollapsePadded(lead: string, m: string, tail: string)
    requires AllWhitespace(lead) && AllWhitespace(tail)
    requires m != [] && !IsWhitespace(m[0]) && !IsWhitespace(m[|m| - 1])
    ensures Strip(CollapseWhitespace(lead + m + tail)) == CollapseWhitespace(m)
  {
    var pre: string := if lead == [] then [] else " ";
    var post: string := if tail == [] then [] else " ";
    CollapsePadded(lead, m, tail);
    CollapseWhitespaceFacts(m);
    assert AllWhitespace(pre) && AllWhitespace(post);
    StripOfPadded(CollapseWhitespace(lead + m + tail), pre, CollapseWhitespace(m), post);
  }

  lemma StripCollapseAllWhitespace(s: string)
    requires AllWhitespace(s)
    ensures Strip(CollapseWhitespace(s)) == []
  {
    if s != [] {
      CollapseAllWhitespace(s);
      assert AllWhitespace(" ");
    }
  }

  /** Collapsing, then stripping, also gives the words joined by single spaces. */
  lemma StripCollapsedIsJoinedWords(s: string)
    ensures Strip(CollapseWhitespace(s)) == Join(" ", SplitWhitespace(s))
  {
    var lead, m, tail := PaddedParts(s);
    if m == [] {
      StripCollapseAllWhitespace(s);
      SplitWhitespaceEmpty(s);
    } else {
      StripCollapseJoinedOfParts(s, lead, m, tail);
    }
  }

  /** `s` as leading whitespace, a text with no whitespace at its ends, and trailing whitespace. */
  lemma PaddedParts(s: string) returns (lead: string, m: string, tail: string)
    ensures s == lead + m + tail && AllWhitespace(lead) && AllWhitespace(tail)
    ensures m == [] || (!IsWhitespace(m[0]) && !IsWhitespace(m[|m| - 1]))
    ensures m == [] ==> AllWhitespace(s)
  {
    var i, j := TrimBounds(s);
    lead, m, tail := s[..i], s[i..j], s[j..];
    SplitThree(s, i, j);
    assert m != [] ==> m[0] == s[i] && m[|m| - 1] == s[j - 1];
  }

  /** Where `strip` cuts: the leading whitespace ends at `i` and the trailing whitespace starts at `j`. */
  lemma TrimBounds(s: string) returns (i: nat, j: nat)
    ensures i <= j <= |s| && AllWhitespace(s[..i]) && AllWhitespace(s[j..])
    ensures i < j ==> !IsWhitespace(s[i]) && !IsWhitespace(s[j - 1])
    ensures i == j ==> AllWhitespace(s)
  {
    i, j := StripBounds(s);
  }

  /** `strip` keeps the slice between the bounds. */
  lemma StripBounds(s: string) returns (i: nat, j: nat)
    ensures i <= j <= |s| && Strip(s) == s[i..j] && AllWhitespace(s[..i]) && AllWhitespace(s[j..])
    ensures i < j ==> !IsWhitespace(s[i]) && !IsWhitespace(s[j - 1])
    ensures i == j ==> AllWhitespace(s)
  {
    var t := TrimStart(s);
    var r := TrimEnd(t);
    i := |s| - |t|;
    j := i + |r|;
    assert t == s[i..];
    assert r == s[i..j];
    assert s[j..] == t[|r|..];
    if i < j {
      assert s[i] == r[0] && s[j - 1] == r[|r| - 1];
    } else {
      assert r == [];
    }
    assert Strip(s) == r;
  }

  lemma StripCollapseJoinedOfParts(s: string, lead: string, m: string, tail: string)
    requires s == lead + m + tail && AllWhitespace(lead) && AllWhitespace(tail)
    requires m != [] && !IsWhitespace(m[0]) && !IsWhitespace(m[|m| - 1])
    ensures Strip(CollapseWhitespace(s)) == Join(" ", SplitWhitespace(s))
  {
    StripCollapsePadded(lead, m, tail);
    CollapseTrimmedIsJoinedWords(m);
    SplitWordsOfPadded(lead, m, tail);
  }

  /** Python `s.replace(pattern, replacement)`: every non-overlapping occurrence, from left to right. */
  function Replace(s: string, pattern: string, replacement: string): (r: string)
    ensures forall c :: c in r ==> c in s || c in replacement
    ensures |pattern| == 1 && pattern[0] !in replacement ==> pattern[0] !in r
    ensures |pattern| > 0 && !Contains(s, pattern) ==> r == s
    decreases |s|
  {
    if |pattern| == 0 then
      // Python inserts the replacement before every character and at the end
      if s == [] then replacement else replacement + [s[0]] + Replace(s[1..], pattern, replacement)
    else if |s| < |pattern| then s
    else if s[..|pattern|] == pattern then
      assert forall c :: c in s[|pattern|..] ==> c in s;
      replacement + Replace(s[|pattern|..], pattern, replacement)
    else
      [s[0]] + Replace(s[1..], pattern, replacement)
  }

  /**
   * The first occurrence of `pattern` is the one replaced first: when no
   * occurrence starts inside `a`, the text `a` is kept, the occurrence becomes
   * `replacement`, and the rest is rewritten in turn.
   */
  lemma {:induction false} ReplaceFirstOccurrence(a: string, pattern: string, b: string, replacement: string)
    requires |pattern| > 0 && !Contains(a + pattern[..|pattern| - 1], pattern)
    ensures Replace(a + pattern + b, pattern, replacement) == a + replacement + Replace(b, pattern, replacement)
    decreases |a|
  {
    var rest := Replace(b, pattern, replacement);
    if a == [] {
      MatchAtFront(pattern, b);
      ReplaceAtMatch(pattern + b, pattern, replacement);
      EmptyAppend(pattern + b);
      AppendAssoc([], pattern, b);
      EmptyAppend(replacement + rest);
      AppendAssoc([], replacement, rest);
    } else {
      var s := a + pattern + b;
      var a' := a[1..];
      NoMatchAtFront(a, pattern, b);
      ReplaceAtMiss(s, pattern, replacement);
      ConsTail(a, pattern, b);
      ReplaceFirstOccurrence(a', pattern, b, replacement);
      ConsAppend3(a[0], a', replacement, rest);
    }
  }

  /** `pattern + b` starts with `pattern`, and what follows it is `b`. */
  lemma MatchAtFront(pattern: string, b: string)
    ensures StartsWith(pattern + b, pattern) && (pattern + b)[|pattern|..] == b
  {
    assert (pattern + b)[..|pattern|] == pattern;
  }

  /**
   * When `pattern` does not occur in `a` extended by all but the last
   * character of `pattern`, the text `a + pattern + b` does not start with
   * `pattern`, and the same holds one character further on.
   */
  lemma NoMatchAtFront(a: string, pattern: string, b: string)
    requires a != [] && |pattern| > 0 && !Contains(a + pattern[..|pattern| - 1], pattern)
    ensures !StartsWith(a + pattern + b, pattern)
    ensures !Contains(a[1..] + pattern[..|pattern| - 1], pattern)
  {
    var p' := pattern[..|pattern| - 1];
    var s := a + pattern + b;
    assert !StartsWith(a + p', pattern);
    assert (a + p')[..|pattern|] == s[..|pattern|];
    assert (a + p')[1..] == a[1..] + p';
  }

  /** Dropping the first character of `a + pattern + b`, for a non-empty `a`. */
  lemma ConsTail(a: string, pattern: string, b: string)
    requires a != []
    ensures (a + pattern + b)[0] == a[0] && (a + pattern + b)[1..] == a[1..] + pattern + b
    ensures [a[0]] + a[1..] == a
  {
  }

  lemma ReplaceAtMatch(s: string, pattern: string, replacement: string)
    requires |pattern| > 0 && StartsWith(s, pattern)
    ensures Replace(s, pattern, replacement) == replacement + Replace(s[|pattern|..], pattern, replacement)
  {
  }

  lemma ReplaceAtMiss(s: string, pattern: string, replacement: string)
    requires |pattern| > 0 && s != [] && !StartsWith(s, pattern)
    ensures Replace(s, pattern, replacement) == [s[0]] + Replace(s[1..], pattern, replacement)
  {
  }

  lemma ConsAppend3(x: char, a: string, b: string, c: string)
    ensures [x] + (a + b + c) == ([x] + a) + b + c
  {
  }

  /** `s.replace(from, to)` for single characters: a character-by-character substitution. */
  function ReplaceChar(s: string, from: char, to: char): (r: string)
    ensures |r| == |s|
  {
    if s == [] then [] else [if s[0] == from then to else s[0]] + ReplaceChar(s[1..], from, to)
  }

  /** Each character is replaced when it is `from` and kept otherwise. */
  lemma {:induction false} ReplaceCharAt(s: string, from: char, to: char)
    ensures forall i :: 0 <= i < |s| ==> ReplaceChar(s, from, to)[i] == if s[i] == from then to else s[i]
  {
    if s != [] {
      ReplaceCharAt(s[1..], from, to);
      forall i | 1 <= i < |s| ensures ReplaceChar(s, from, to)[i] == if s[i] == from then to else s[i] {
        assert ReplaceChar(s, from, to)[i] == ReplaceChar(s[1..], from, to)[i - 1];
      }
    }
  }

  /** The substitution agrees with the general `replace`. */
  lemma {:induction false} ReplaceCharIsReplace(s: string, from: char, to: char)
    ensures ReplaceChar(s, from, to) == Replace(s, [from], [to])
    decreases |s|
  {
    if s != [] {
      ReplaceCharIsReplace(s[1..], from, to);
      if s[0] == from {
        assert s[..|[from]|] == [from];
      } else {
        assert s[..|[from]|] != [from] by { assert s[..1][0] == s[0]; }
      }
    }
  }

  /** Python `s.split(sep)[0]`: the text before the first occurrence of `sep`. */
  function BeforeFirst(s: string, sep: string): (r: string)
    requires |sep| > 0
    ensures |r| <= |s| && r == s[..|r|]
    ensures |r| == |s| || StartsWith(s[|r|..], sep)
    ensures s != [] && !StartsWith(s, sep) ==> r != []
    ensures forall k :: 0 <= k < |r| ==> !StartsWith(s[k..], sep)
  {
    if s == [] || StartsWith(s, sep) then []
    else
      var rest := BeforeFirst(s[1..], sep);
      assert forall k :: 1 <= k <= |rest| ==> s[k..] == s[1..][k - 1..];
      [s[0]] + rest
  }

  /** Python `s.split(sep)` for a one-character separator: always at least one field, none holding `sep`. */
  function SplitOn(s: string, sep: char): (fields: seq<string>)
    ensures |fields| >= 1
    ensures forall i :: 0 <= i < |fields| ==> sep !in fields[i]
  {
    if s == [] then [""]
    else
      var rest := SplitOn(s[1..], sep);
      assert s == [s[0]] + s[1..];
      if s[0] == sep then [""] + rest else [[s[0]] + rest[0]] + rest[1..]
  }

  /** A field without the separator, then the separator, splits off as that field. */
  lemma {:induction false} SplitOnField(field: string, sep: char, rest: string)
    requires sep !in field
    ensures SplitOn(field + [sep] + rest, sep) == [field] + SplitOn(rest, sep)
  {
    var x := field + [sep] + rest;
    if field != [] {
      SplitOnField(field[1..], sep, rest);
      assert x[0] == field[0] && x[1..] == field[1..] + [sep] + rest;
      assert [field[0]] + field[1..] == field;
    } else {
      assert field + [sep] + rest == [sep] + rest;
    }
  }

  /** A string without the separator is a single field. */
  lemma {:induction false} SplitOnWhole(s: string, sep: char)
    requires sep !in s
    ensures SplitOn(s, sep) == [s]
  {
    if s != [] {
      SplitOnWhole(s[1..], sep);
      assert [s[0]] + s[1..] == s;
    }
  }

  // ---------------------------------------------------------------------------
  // Whole numbers in decimal

  function DigitChar(d: nat): (c: char)
    requires d < 10
    ensures IsDigit(c)
  {
    ('0' as int + d) as char
  }

  function DigitValue(c: char): (d: nat)
    requires IsDigit(c)
    ensures d < 10
  {
    c as int - '0' as int
  }

  /** The shortest decimal rendering of `n` (JavaScript's `${n}` and Python's `str(n)`). */
  function NatToDecimal(n: nat): (r: string)
    ensures |r| >= 1 && AllDigits(r)
    decreases n
  {
    if n < 10 then [DigitChar(n)] else NatToDecimal(n / 10) + [DigitChar(n % 10)]
  }

  function IntToDecimal(n: int): (r: string)
    ensures r != []
  {
    if n < 0 then "-" + NatToDecimal(-n) else NatToDecimal(n)
  }

  /** The value of a string of decimal digits (Python `int(s)` on such a string). */
  function DecimalValue(s: string): nat
    requires AllDigits(s)
  {
    if s == [] then 0 else 10 * DecimalValue(s[..|s| - 1]) + DigitValue(s[|s| - 1])
  }

  /** Reading back a rendered number gives the number. */
  lemma {:induction false} DecimalRoundTrip(n: nat)
    ensures DecimalValue(NatToDecimal(n)) == n
    decreases n
  {
    if n >= 10 {
      var r := NatToDecimal(n);
      assert r[..|r| - 1] == NatToDecimal(n / 10);
      DecimalRoundTrip(n / 10);
    }
  }

  /** `s` padded on the left with zeros to at least `width` characters. */
  function ZeroPad(s: string, width: nat): (r: string)
    ensures |r| == if |s| < width then width else |s|
    ensures AllDigits(s) ==> AllDigits(r)
    decreases width - |s|
  {
    if |s| < width then ZeroPad("0" + s, width) else s
  }

  /** A leading zero does not change the value. */
  lemma {:induction false} LeadingZero(s: string)
    requires AllDigits(s)
    ensures DecimalValue("0" + s) == DecimalValue(s)
    decreases |s|
  {
    var t := "0" + s;
    if s == [] {
      assert t[..|t| - 1] == [];
    } else {
      assert t[..|t| - 1] == "0" + s[..|s| - 1];
      LeadingZero(s[..|s| - 1]);
    }
  }

  /** Zero-padding does not change the value. */
  lemma {:induction false} ZeroPadValue(s: string, width: nat)
    requires AllDigits(s)
    ensures DecimalValue(ZeroPad(s, width)) == DecimalValue(s)
    decreases width - |s|
  {
    if |s| < width {
      LeadingZero(s);
      ZeroPadValue("0" + s, width);
    }
  }

  /** The number of digits of one-, two- and four-digit numbers. */
  lemma NatToDecimalLength(n: nat)
    ensures n < 10 ==> |NatToDecimal(n)| == 1
    ensures 10 <= n < 100 ==> |NatToDecimal(n)| == 2
    ensures 1000 <= n < 10000 ==> |NatToDecimal(n)| == 4
  {
    if 1000 <= n < 10000 {
      assert |NatToDecimal(n / 1000)| == 1;
      assert |NatToDecimal(n / 100)| == 2;
      assert |NatToDecimal(n / 10)| == 3;
    }
  }
}
