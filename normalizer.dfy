/**
 * The comment normalizer of detoxic.py, `preprocess_text`: a missing comment
 * becomes the empty string; otherwise the text is lowercased, every character
 * other than an ASCII letter, an ASCII digit or whitespace is deleted
 * (`re.sub(r'[^a-zA-Z0-9\s]', '', text)`), and whitespace runs are collapsed
 * to single spaces with the ends trimmed (`' '.join(text.split())`).
 *
 * Strings are `seq<char>` over Unicode scalar values. Lowercasing is ASCII
 * only; whitespace is Python's full `str.isspace` set, which is what both
 * `\s` in a `str` pattern and argument-less `str.split()` use.
 */
module Normalizer {
  import opened Wrappers

  // ---------------------------------------------------------------- characters

  /** Python's `str.isspace`. */
  predicate IsWhitespace(c: char) {
    ('\t' <= c <= '\r') || ('\U{1C}' <= c <= ' ') || c == '\U{85}' || c == '\U{A0}'
    || c == '\U{1680}' || ('\U{2000}' <= c <= '\U{200A}') || c == '\U{2028}' || c == '\U{2029}'
    || c == '\U{202F}' || c == '\U{205F}' || c == '\U{3000}'
  }

  predicate IsWordChar(c: char) { !IsWhitespace(c) }

  predicate IsAsciiUpper(c: char) { 'A' <= c <= 'Z' }
  predicate IsAsciiLower(c: char) { 'a' <= c <= 'z' }
  predicate IsAsciiDigit(c: char) { '0' <= c <= '9' }

  /** The class `a-zA-Z0-9` of the deletion pattern. */
  predicate IsLetterOrDigit(c: char) { IsAsciiLower(c) || IsAsciiUpper(c) || IsAsciiDigit(c) }

  /** The characters the deletion pattern leaves in place. */
  predicate IsKept(c: char) { IsLetterOrDigit(c) || IsWhitespace(c) }

  /** The characters a normalized comment holds besides its single spaces. */
  predicate IsLowerAlnum(c: char) { IsAsciiLower(c) || IsAsciiDigit(c) }

  /** ASCII lowercasing of one character: a capital becomes the lower-case
      letter at the same place in the alphabet, every other character stays,
      and every character keeps its class. */
  function LowerChar(c: char): (d: char)
    ensures IsAsciiUpper(c) ==> IsAsciiLower(d) && d as int - 'a' as int == c as int - 'A' as int
    ensures !IsAsciiUpper(d)
    ensures !IsAsciiUpper(c) ==> d == c
    ensures IsLetterOrDigit(d) == IsLetterOrDigit(c)
    ensures IsWhitespace(d) == IsWhitespace(c)
  {
    if IsAsciiUpper(c) then (c as int + 32) as char else c
  }

  // ----------------------------------------------------------------- sequences

  /** `text.lower()`, restricted to ASCII letters. */
  function Lower(s: string): (r: string)
    ensures |r| == |s|
    ensures forall i :: 0 <= i < |s| ==> r[i] == LowerChar(s[i])
    ensures forall c :: c in r ==> !IsAsciiUpper(c)
  {
    var r := seq(|s|, i requires 0 <= i < |s| => LowerChar(s[i]));
    assert forall c :: c in r ==> !IsAsciiUpper(c) by {
      forall c | c in r ensures !IsAsciiUpper(c) {
        var i :| 0 <= i < |r| && r[i] == c;
      }
    }
    r
  }

  /** The characters of `s` that satisfy `p`, in their order. */
  function Filter(p: char -> bool, s: string): (r: string)
    ensures |r| <= |s|
    ensures forall c :: c in r ==> c in s && p(c)
  {
    if s == [] then []
    else (if p(s[0]) then [s[0]] else []) + Filter(p, s[1..])
  }

  /** A word as `str.split()` returns it: never empty, never whitespace. */
  predicate IsWord(w: string) {
    w != [] && forall i :: 0 <= i < |w| ==> IsWordChar(w[i])
  }

  /** A word of a normalized comment. */
  predicate IsCleanWord(w: string) {
    w != [] && forall i :: 0 <= i < |w| ==> IsLowerAlnum(w[i])
  }

  /** The length of the leading run of non-whitespace characters of `s`. */
  function WordLength(s: string): (n: nat)
    ensures n <= |s|
    ensures forall i :: 0 <= i < n ==> IsWordChar(s[i])
    ensures n == |s| || IsWhitespace(s[n])
  {
    if s == [] || IsWhitespace(s[0]) then 0 else 1 + WordLength(s[1..])
  }

  /** Argument-less `str.split()`: the maximal runs of non-whitespace
      characters of `s`, left to right. Whitespace at the ends or repeated
      yields no empty word. */
  function Split(s: string): (ws: seq<string>)
    ensures forall k :: 0 <= k < |ws| ==> IsWord(ws[k])
    ensures forall k, i :: 0 <= k < |ws| && 0 <= i < |ws[k]| ==> ws[k][i] in s
    decreases |s|
  {
    if s == [] then []
    else if IsWhitespace(s[0]) then Split(s[1..])
    else
      var n := WordLength(s);
      [s[..n]] + Split(s[n..])
  }

  /** `' '.join(ws)`: the words in order with one space between neighbours,
      so one character longer than the words run together per gap. */
  function Join(ws: seq<string>): (r: string)
    ensures ws == [] ==> r == ""
    ensures ws != [] ==> |r| == |Concat(ws)| + |ws| - 1
    ensures ws != [] ==> r[..|ws[0]|] == ws[0]
  {
    if ws == [] then ""
    else if |ws| == 1 then ws[0]
    else ws[0] + " " + Join(ws[1..])
  }

  /** The words of `ws` run together. */
  function Concat(ws: seq<string>): string {
    if ws == [] then "" else ws[0] + Concat(ws[1..])
  }

  // ---------------------------------------------------------------- the output

  /** The shape of every normalized comment: lower-case ASCII letters, ASCII
      digits and single spaces, with no space at either end. */
  ghost predicate IsNormalized(s: string) {
    (forall i :: 0 <= i < |s| ==> IsLowerAlnum(s[i]) || s[i] == ' ')
    && (s != [] ==> s[0] != ' ' && s[|s| - 1] != ' ')
    && (forall i, j :: 0 <= i < j < |s| && j == i + 1 ==> s[i] != ' ' || s[j] != ' ')
  }

  /** `preprocess_text`. */
  function Preprocess(text: Option<string>): (r: string)
    ensures text.None? ==> r == ""
    ensures IsNormalized(r)
  {
    match text
    case None => ""
    case Some(t) =>
      var lowered := Lower(t);
      var kept := Filter(IsKept, lowered);
      var words := Split(kept);
      WordsAreClean(kept);
      JoinIsNormalized(words);
      Join(words)
  }

  // -------------------------------------------------------------------- lemmas

  /** The words of a lowercased, symbol-free text are clean words. */
  lemma WordsAreClean(kept: string)
    requires forall c :: c in kept ==> IsKept(c) && !IsAsciiUpper(c)
    ensures forall k :: 0 <= k < |Split(kept)| ==> IsCleanWord(Split(kept)[k])
  {
    var ws := Split(kept);
    forall k, i | 0 <= k < |ws| && 0 <= i < |ws[k]| ensures IsLowerAlnum(ws[k][i]) {
      assert ws[k][i] in kept;
      assert IsWord(ws[k]);
    }
  }

  /** Joining one clean word to a normalized text with a space is normalized. */
  lemma SpacedIsNormalized(w: string, rest: string)
    requires IsCleanWord(w) && IsNormalized(rest) && rest != []
    ensures IsNormalized(w + " " + rest)
  {
    var s := w + " " + rest;
    forall i | 0 <= i < |s| ensures IsLowerAlnum(s[i]) || s[i] == ' ' {
      if i < |w| { assert s[i] == w[i]; }
      else if i > |w| { assert s[i] == rest[i - |w| - 1]; }
    }
    forall i, j | 0 <= i < j < |s| && j == i + 1 ensures s[i] != ' ' || s[j] != ' ' {
      if j < |w| {
        assert s[j] == w[j];
      } else if j == |w| {
        assert s[i] == w[i];
      } else if j == |w| + 1 {
        assert s[j] == rest[0];
      } else {
        assert s[i] == rest[i - |w| - 1] && s[j] == rest[j - |w| - 1];
      }
    }
    assert s[0] == w[0];
    assert s[|s| - 1] == rest[|rest| - 1];
  }

  /** `' '.join` of clean words is normalized, and empty only for no words. */
  lemma {:induction false} JoinIsNormalized(ws: seq<string>)
    requires forall k :: 0 <= k < |ws| ==> IsCleanWord(ws[k])
    ensures IsNormalized(Join(ws))
    ensures Join(ws) == [] <==> ws == []
  {
    if |ws| == 1 {
      assert IsCleanWord(ws[0]);
    } else if |ws| > 1 {
      JoinIsNormalized(ws[1..]);
      assert IsCleanWord(ws[0]);
      SpacedIsNormalized(ws[0], Join(ws[1..]));
    }
  }

  /** `Filter` distributes over concatenation. */
  lemma {:induction false} FilterConcat(p: char -> bool, a: string, b: string)
    ensures Filter(p, a + b) == Filter(p, a) + Filter(p, b)
  {
    if a == [] {
      assert a + b == b;
    } else {
      var head := if p(a[0]) then [a[0]] else [];
      assert (a + b)[0] == a[0] && (a + b)[1..] == a[1..] + b;
      FilterConcat(p, a[1..], b);
      assert Filter(p, a + b) == head + (Filter(p, a[1..]) + Filter(p, b));
    }
  }

  /** `Filter` keeps a text whose characters all pass. */
  lemma {:induction false} FilterAllPass(p: char -> bool, s: string)
    requires forall i :: 0 <= i < |s| ==> p(s[i])
    ensures Filter(p, s) == s
  {
    if s != [] {
      FilterAllPass(p, s[1..]);
    }
  }

  /** Filtering twice is filtering once by both tests. */
  lemma {:induction false} FilterTwice(p: char -> bool, q: char -> bool, both: char -> bool, s: string)
    requires forall c :: both(c) == (p(c) && q(c))
    ensures Filter(q, Filter(p, s)) == Filter(both, s)
  {
    if s != [] {
      FilterTwice(p, q, both, s[1..]);
      var rest := Filter(p, s[1..]);
      if p(s[0]) {
        assert Filter(p, s) == [s[0]] + rest;
        FilterConcat(q, [s[0]], rest);
      } else {
        assert Filter(p, s) == rest;
      }
    }
  }

  /** Lowercasing commutes with keeping the letters and digits. */
  lemma {:induction false} FilterLower(s: string)
    ensures Filter(IsLetterOrDigit, Lower(s)) == Lower(Filter(IsLetterOrDigit, s))
  {
    if s != [] {
      var c, rest := s[0], s[1..];
      var kept := Filter(IsLetterOrDigit, rest);
      FilterLower(rest);
      assert s == [c] + rest;
      LowerCons(c, rest);
      var lowered := Lower(s);
      assert lowered[0] == LowerChar(c) && lowered[1..] == Lower(rest);
      if IsLetterOrDigit(c) {
        assert Filter(IsLetterOrDigit, s) == [c] + kept;
        LowerCons(c, kept);
      } else {
        assert Filter(IsLetterOrDigit, s) == kept;
      }
    }
  }

  /** Lowercasing a text character by character. */
  lemma LowerCons(c: char, s: string)
    ensures Lower([c] + s) == [LowerChar(c)] + Lower(s)
  {
    assert forall i :: 0 < i < |s| + 1 ==> ([c] + s)[i] == s[i - 1];
  }

  /** A word followed by nothing or by whitespace is exactly the leading run. */
  lemma WordLengthOfWord(w: string, rest: string)
    requires IsWord(w)
    requires rest == [] || IsWhitespace(rest[0])
    ensures WordLength(w + rest) == |w|
  {
    var s := w + rest;
    assert forall i :: 0 <= i < |w| ==> s[i] == w[i];
    assert |w| < |s| ==> s[|w|] == rest[0];
  }

  /** Round trip: splitting the `' '.join` of words gives the words back. */
  lemma {:induction false} SplitJoin(ws: seq<string>)
    requires forall k :: 0 <= k < |ws| ==> IsWord(ws[k])
    ensures Split(Join(ws)) == ws
  {
    if |ws| == 1 {
      WordLengthOfWord(ws[0], []);
      assert ws[0] + [] == ws[0];
      assert ws[0][|ws[0]|..] == [];
    } else if |ws| > 1 {
      var w, rest := ws[0], Join(ws[1..]);
      var s := w + " " + rest;
      assert IsWord(w);
      WordLengthOfWord(w, " " + rest);
      assert s == w + (" " + rest);
      assert s[..|w|] == w;
      assert s[|w|..] == " " + rest;
      assert (" " + rest)[1..] == rest;
      SplitJoin(ws[1..]);
      assert [w] + ws[1..] == ws;
    }
  }

  /** Round trip the other way: a normalized text is the `' '.join` of its
      own words. */
  lemma {:induction false} JoinSplit(s: string)
    requires IsNormalized(s)
    ensures Join(Split(s)) == s
    decreases |s|
  {
    if s != [] {
      var n := WordLength(s);
      if n == |s| {
        SingleWord(s);
      } else {
        var tail := s[n + 1..];
        SpaceAfterWord(s, n);
        NormalizedSuffix(s, n + 1);
        SplitSkipsSpace(s, n);
        StartsWithWord(tail);
        JoinSplit(tail);
        JoinWords(s[..n], Split(tail));
        AroundSpace(s, n);
      }
    }
  }

  /** A text without whitespace is its own only word. */
  lemma SingleWord(s: string)
    requires s != [] && WordLength(s) == |s|
    ensures Split(s) == [s]
  {
    assert !IsWhitespace(s[0]);
    assert s[..|s|] == s && s[|s|..] == [];
  }

  /** A text that starts with a word splits into at least one word. */
  lemma StartsWithWord(s: string)
    requires s != [] && !IsWhitespace(s[0])
    ensures Split(s) != []
  {
  }

  /** A text is what comes before one of its spaces, the space, and what
      comes after. */
  lemma AroundSpace(s: string, n: nat)
    requires n < |s| && s[n] == ' '
    ensures s == s[..n] + " " + s[n + 1..]
  {
  }

  /** In a normalized text the first word is followed by a single space and
      more text. */
  lemma SpaceAfterWord(s: string, n: nat)
    requires IsNormalized(s) && s != [] && n == WordLength(s) < |s|
    ensures s[n] == ' ' && n + 1 < |s| && s[n + 1] != ' ' && IsLowerAlnum(s[n + 1])
  {
    assert IsLowerAlnum(s[n]) || s[n] == ' ';
    assert s[n] == ' ';
    assert n != |s| - 1;
    assert s[n] != ' ' || s[n + 1] != ' ';
  }

  /** What follows a space of a normalized text is normalized. */
  lemma NormalizedSuffix(s: string, m: nat)
    requires IsNormalized(s) && 0 < m < |s| && s[m] != ' '
    ensures IsNormalized(s[m..])
  {
    var t := s[m..];
    forall i | 0 <= i < |t| ensures IsLowerAlnum(t[i]) || t[i] == ' ' {
      assert t[i] == s[m + i];
    }
    forall i, j | 0 <= i < j < |t| && j == i + 1 ensures t[i] != ' ' || t[j] != ' ' {
      assert t[i] == s[m + i] && t[j] == s[m + j];
    }
    assert t[|t| - 1] == s[|s| - 1];
  }

  /** `split()` takes the leading word and skips the whitespace after it. */
  lemma SplitSkipsSpace(s: string, n: nat)
    requires 0 < n < |s| && n == WordLength(s)
    ensures Split(s) == [s[..n]] + Split(s[n + 1..])
  {
    assert !IsWhitespace(s[0]);
    assert IsWhitespace(s[n..][0]);
    assert s[n..][1..] == s[n + 1..];
  }

  /** `' '.join` of a word and at least one more. */
  lemma JoinWords(w: string, ws: seq<string>)
    requires ws != []
    ensures Join([w] + ws) == w + " " + Join(ws)
  {
    assert ([w] + ws)[1..] == ws;
  }

  /** The words run together are the non-whitespace characters, in order. */
  lemma {:induction false} ConcatSplit(s: string)
    ensures Concat(Split(s)) == Filter(IsWordChar, s)
    decreases |s|
  {
    if s != [] {
      if IsWhitespace(s[0]) {
        ConcatSplit(s[1..]);
      } else {
        var n := WordLength(s);
        ConcatSplit(s[n..]);
        assert ([s[..n]] + Split(s[n..]))[1..] == Split(s[n..]);
        assert s == s[..n] + s[n..];
        FilterConcat(IsWordChar, s[..n], s[n..]);
        FilterAllPass(IsWordChar, s[..n]);
      }
    }
  }

  /** Deleting the non-alphanumerics of a clean word, a space and more text
      leaves the word followed by whatever the rest keeps. */
  lemma FilterWordSpace(w: string, rest: string)
    requires IsCleanWord(w)
    ensures Filter(IsLetterOrDigit, w + " " + rest) == w + Filter(IsLetterOrDigit, rest)
  {
    assert !IsLetterOrDigit(' ') && " "[1..] == [];
    assert Filter(IsLetterOrDigit, " ") == [];
    FilterAllPass(IsLetterOrDigit, w);
    FilterConcat(IsLetterOrDigit, w, " ");
    assert Filter(IsLetterOrDigit, w + " ") == w;
    FilterConcat(IsLetterOrDigit, w + " ", rest);
  }

  /** The letters and digits of a `' '.join` of clean words are the words run
      together. */
  lemma {:induction false} FilterJoin(ws: seq<string>)
    requires forall k :: 0 <= k < |ws| ==> IsCleanWord(ws[k])
    ensures Filter(IsLetterOrDigit, Join(ws)) == Concat(ws)
  {
    if |ws| == 1 {
      assert IsCleanWord(ws[0]);
      FilterAllPass(IsLetterOrDigit, ws[0]);
      assert Concat(ws) == ws[0] + Concat([]);
    } else if |ws| > 1 {
      assert IsCleanWord(ws[0]);
      FilterJoin(ws[1..]);
      FilterWordSpace(ws[0], Join(ws[1..]));
    }
  }

  // ---------------------------------------------------------------- properties

  /** The letters and digits of the result are those of the input, lowercased
      and in their original order; nothing else is dropped or reordered, and
      the words of the result are the words of the filtered text. */
  lemma KeepsLettersAndDigitsInOrder(t: string)
    ensures Filter(IsLetterOrDigit, Preprocess(Some(t))) == Lower(Filter(IsLetterOrDigit, t))
    ensures Split(Preprocess(Some(t))) == Split(Filter(IsKept, Lower(t)))
  {
    var lowered := Lower(t);
    var kept := Filter(IsKept, lowered);
    var ws := Split(kept);
    WordsAreClean(kept);
    FilterJoin(ws);
    ConcatSplit(kept);
    FilterTwice(IsKept, IsWordChar, IsLetterOrDigit, lowered);
    FilterLower(t);
    SplitJoin(ws);
  }

  /** The normalized texts are exactly the fixed points of `preprocess_text`. */
  lemma NormalizedIsFixpoint(s: string)
    ensures Preprocess(Some(s)) == s <==> IsNormalized(s)
  {
    if IsNormalized(s) {
      assert Lower(s) == s;
      FilterAllPass(IsKept, s);
      JoinSplit(s);
    }
  }

  /** `preprocess_text` is idempotent. */
  lemma PreprocessIdempotent(text: Option<string>)
    ensures Preprocess(Some(Preprocess(text))) == Preprocess(text)
  {
    NormalizedIsFixpoint(Preprocess(text));
  }
}
