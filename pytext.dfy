/**
 * The pieces of Python's `str` that the crawler relies on: `isspace`,
 * `strip()`, `split()` with no separator, `sep.join(parts)`, the substring
 * test `k in s`, `str(n)` for a count, and `s.split(sep)`, which is only
 * used to state how a formatted reply reads line by line.
 */
module PyText {

  /** Python's `str.isspace()`: the characters `strip()` and `split()` treat as whitespace. */
  predicate IsSpace(c: char)
  {
    || ('\t' <= c <= '\r')
    || ('\U{1C}' <= c <= ' ')
    || c == '\U{85}' || c == '\U{A0}' || c == '\U{1680}'
    || ('\U{2000}' <= c <= '\U{200A}')
    || c == '\U{2028}' || c == '\U{2029}' || c == '\U{202F}' || c == '\U{205F}'
    || c == '\U{3000}'
  }

  /** Every character of `s[from..to]` is whitespace. */
  predicate SpaceBetween(s: string, from: int, to: int)
  {
    forall k :: from <= k < to && 0 <= k < |s| ==> IsSpace(s[k])
  }

  predicate NoSpace(s: string)
  {
    forall i :: 0 <= i < |s| ==> !IsSpace(s[i])
  }

  // ---------------------------------------------------------------
  // strip()
  // ---------------------------------------------------------------

  /** `s.lstrip()`. */
  function TrimStart(s: string): string
  {
    if s != [] && IsSpace(s[0]) then TrimStart(s[1..]) else s
  }

  /** `s.rstrip()`. */
  function TrimEnd(s: string): string
  {
    if s != [] && IsSpace(s[|s| - 1]) then TrimEnd(s[..|s| - 1]) else s
  }

  /** `s.strip()`. */
  function Strip(s: string): string
  {
    TrimEnd(TrimStart(s))
  }

  /** How many whitespace characters `s.lstrip()` removes. */
  function LeadingSpace(s: string): nat
  {
    if s != [] && IsSpace(s[0]) then 1 + LeadingSpace(s[1..]) else 0
  }

  /** `lstrip()` drops the leading whitespace run, only whitespace, and leaves none in front. */
  lemma {:induction false} TrimStartSpec(s: string)
    ensures var r := TrimStart(s);
            && LeadingSpace(s) <= |s| && r == s[LeadingSpace(s)..]
            && SpaceBetween(s, 0, LeadingSpace(s))
            && (r == [] || !IsSpace(r[0]))
  {
    if s != [] && IsSpace(s[0]) {
      TrimStartSpec(s[1..]);
      assert forall k :: 1 <= k < |s| ==> s[k] == s[1..][k - 1];
      assert s[1..][LeadingSpace(s[1..])..] == s[LeadingSpace(s)..];
    }
  }

  /** `rstrip()` keeps a prefix, drops only whitespace, and leaves no whitespace at the end. */
  lemma {:induction false} TrimEndSpec(s: string)
    ensures var r := TrimEnd(s);
            && r <= s
            && SpaceBetween(s, |r|, |s|)
            && (r == [] || !IsSpace(r[|r| - 1]))
  {
    if s != [] && IsSpace(s[|s| - 1]) {
      TrimEndSpec(s[..|s| - 1]);
      assert forall k :: 0 <= k < |s| - 1 ==> s[k] == s[..|s| - 1][k];
    }
  }

  /**
   * `s.strip()` is the slice of `s` after its leading whitespace run and
   * before its trailing whitespace run, and neither starts nor ends with
   * whitespace; together these determine it.
   */
  lemma StripSpec(s: string)
    ensures var r := Strip(s);
            && (r == [] || (!IsSpace(r[0]) && !IsSpace(r[|r| - 1])))
            && LeadingSpace(s) + |r| <= |s| && r == s[LeadingSpace(s)..LeadingSpace(s) + |r|]
            && SpaceBetween(s, 0, LeadingSpace(s)) && SpaceBetween(s, LeadingSpace(s) + |r|, |s|)
  {
    var t := TrimStart(s);
    var r := TrimEnd(t);
    TrimStartSpec(s);
    TrimEndSpec(t);
    var i := LeadingSpace(s);
    assert r == s[i..i + |r|];
    assert SpaceBetween(s, i + |r|, |s|) by {
      forall k | i + |r| <= k < |s| ensures IsSpace(s[k]) {
        assert s[k] == t[k - i];
      }
    }
  }

  // ---------------------------------------------------------------
  // `k in s` for strings
  // ---------------------------------------------------------------

  /** `k` occurs in `s` starting at index `i`. */
  predicate OccursAt(s: string, k: string, i: int)
  {
    0 <= i && i + |k| <= |s| && s[i..i + |k|] == k
  }

  /** Python's `k in s` on two strings: `k` occurs as a contiguous substring of `s`. */
  function Contains(s: string, k: string): (b: bool)
    ensures b <==> exists i :: OccursAt(s, k, i)
    decreases |s|
  {
    if |k| > |s| then
      false
    else if k <= s then
      assert OccursAt(s, k, 0);
      true
    else
      var b := Contains(s[1..], k);
      assert b ==> exists i :: OccursAt(s, k, i) by {
        if b {
          var i :| OccursAt(s[1..], k, i);
          assert s[1..][i..i + |k|] == s[i + 1..i + 1 + |k|];
          assert OccursAt(s, k, i + 1);
        }
      }
      assert (exists i :: OccursAt(s, k, i)) ==> b by {
        if i :| OccursAt(s, k, i) {
          assert i != 0;
          assert s[1..][i - 1..i - 1 + |k|] == s[i..i + |k|];
          assert OccursAt(s[1..], k, i - 1);
        }
      }
      b
  }

  /** An occurrence stays an occurrence when text is added after it. */
  lemma ContainsAppend(s: string, t: string, k: string)
    requires Contains(s, k)
    ensures Contains(s + t, k)
  {
    var i :| OccursAt(s, k, i);
    assert (s + t)[i..i + |k|] == s[i..i + |k|];
    assert OccursAt(s + t, k, i);
  }

  // ---------------------------------------------------------------
  // split() and sep.join(parts)
  // ---------------------------------------------------------------

  /** The characters of `s` that are not whitespace, in order. */
  function NonSpaceChars(s: string): string
  {
    if s == [] then [] else (if IsSpace(s[0]) then [] else [s[0]]) + NonSpaceChars(s[1..])
  }

  function Concat(parts: seq<string>): string
  {
    if parts == [] then [] else parts[0] + Concat(parts[1..])
  }

  /** What `split()` produces: non-empty pieces without whitespace. */
  predicate WordList(words: seq<string>)
  {
    forall i :: 0 <= i < |words| ==> words[i] != [] && NoSpace(words[i])
  }

  /** The longest prefix of `s` without whitespace. */
  function Word(s: string): (w: string)
    ensures w <= s && NoSpace(w)
    ensures |w| == |s| || IsSpace(s[|w|])
  {
    if s == [] || IsSpace(s[0]) then [] else [s[0]] + Word(s[1..])
  }

  lemma {:induction false} NonSpaceCharsAppend(a: string, b: string)
    ensures NonSpaceChars(a + b) == NonSpaceChars(a) + NonSpaceChars(b)
  {
    if a == [] {
      assert a + b == b;
    } else {
      assert (a + b)[0] == a[0] && (a + b)[1..] == a[1..] + b;
      var c := if IsSpace(a[0]) then [] else [a[0]];
      assert NonSpaceChars(a + b) == c + NonSpaceChars(a[1..] + b);
      NonSpaceCharsAppend(a[1..], b);
      assert c + (NonSpaceChars(a[1..]) + NonSpaceChars(b)) == (c + NonSpaceChars(a[1..])) + NonSpaceChars(b);
    }
  }

  lemma {:induction false} NonSpaceCharsOfWord(w: string)
    requires NoSpace(w)
    ensures NonSpaceChars(w) == w
  {
    if w != [] {
      NonSpaceCharsOfWord(w[1..]);
    }
  }

  /**
   * Python's `s.split()`: the maximal runs of non-whitespace characters, in
   * order. Concatenated they give back exactly the non-whitespace characters
   * of `s`.
   */
  function Split(s: string): (words: seq<string>)
    ensures WordList(words)
    ensures Concat(words) == NonSpaceChars(s)
    decreases |s|
  {
    if s == [] then
      []
    else if IsSpace(s[0]) then
      Split(s[1..])
    else
      var w := Word(s);
      var rest := Split(s[|w|..]);
      assert s == w + s[|w|..];
      NonSpaceCharsAppend(w, s[|w|..]);
      NonSpaceCharsOfWord(w);
      [w] + rest
  }

  /** Python's `sep.join(parts)`. */
  function Join(sep: string, parts: seq<string>): string
  {
    if parts == [] then []
    else if |parts| == 1 then parts[0]
    else parts[0] + sep + Join(sep, parts[1..])
  }

  /** `" ".join(s.split())`: every whitespace run collapsed to one space, both ends trimmed. */
  function NormalizeWhitespace(s: string): (r: string)
    ensures r == [] || (!IsSpace(r[0]) && !IsSpace(r[|r| - 1]))
    ensures forall i :: 0 <= i < |r| && IsSpace(r[i]) ==> r[i] == ' '
    ensures forall i :: 0 <= i < |r| - 1 && r[i] == ' ' ==> r[i + 1] != ' '
    ensures Split(r) == Split(s)
  {
    var words := Split(s);
    JoinWordsShape(words);
    SplitJoinWords(words);
    Join(" ", words)
  }

  /** A string `NormalizeWhitespace` could have produced. */
  predicate Normalized(r: string)
  {
    && (r == [] || (!IsSpace(r[0]) && !IsSpace(r[|r| - 1])))
    && (forall i :: 0 <= i < |r| && IsSpace(r[i]) ==> r[i] == ' ')
    && (forall i :: 0 <= i < |r| - 1 && r[i] == ' ' ==> r[i + 1] != ' ')
  }

  /** Joining words with single spaces yields a normalized string. */
  lemma {:induction false} JoinWordsShape(words: seq<string>)
    requires WordList(words)
    ensures Normalized(Join(" ", words))
  {
    if |words| >= 2 {
      var w, t := words[0], Join(" ", words[1..]);
      JoinWordsShape(words[1..]);
      JoinNonEmpty(words[1..]);
      var r := w + " " + t;
      assert r == Join(" ", words);
      forall i | 0 <= i < |r| && IsSpace(r[i]) ensures r[i] == ' ' {
        if i > |w| { assert r[i] == t[i - |w| - 1]; }
      }
      forall i | 0 <= i < |r| - 1 && r[i] == ' ' ensures r[i + 1] != ' ' {
        if i > |w| { assert r[i] == t[i - |w| - 1] && r[i + 1] == t[i - |w|]; }
      }
    }
  }

  lemma {:induction false} JoinNonEmpty(words: seq<string>)
    requires WordList(words) && words != []
    ensures Join(" ", words) != [] && Join(" ", words)[0] == words[0][0]
  {
  }

  /** The first word of `w + t`, when `w` is a word and `t` starts with whitespace, is `w`. */
  lemma {:induction false} WordOfPrefix(w: string, t: string)
    requires NoSpace(w)
    requires t == [] || IsSpace(t[0])
    ensures Word(w + t) == w
  {
    if w != [] {
      assert (w + t)[1..] == w[1..] + t;
      WordOfPrefix(w[1..], t);
    }
  }

  /** `split()` undoes `" ".join(words)` for any list of words. */
  lemma {:induction false} SplitJoinWords(words: seq<string>)
    requires WordList(words)
    ensures Split(Join(" ", words)) == words
  {
    if |words| == 1 {
      WordOfPrefix(words[0], []);
      assert words[0] + [] == words[0];
      assert words[0][|words[0]|..] == [];
    } else if |words| >= 2 {
      var w, t := words[0], Join(" ", words[1..]);
      var s := w + " " + t;
      WordOfPrefix(w, " " + t);
      assert s == w + (" " + t);
      assert s[|w|..] == " " + t;
      assert (" " + t)[1..] == t;
      SplitJoinWords(words[1..]);
    }
  }

  /** `split()` of a word, a space and a rest is the word followed by the split of the rest. */
  lemma SplitWordSpace(w: string, rest: string)
    requires w != [] && NoSpace(w)
    ensures Split(w + " " + rest) == [w] + Split(rest)
  {
    var s := w + " " + rest;
    WordOfPrefix(w, " " + rest);
    assert s == w + (" " + rest);
    assert s[|w|..] == " " + rest;
    assert (" " + rest)[1..] == rest;
  }

  /** What follows the first word and its space in a normalized string is normalized. */
  lemma NormalizedTail(r: string, k: nat)
    requires Normalized(r) && k < |r| && r[k] == ' '
    ensures Normalized(r[k + 1..])
  {
    var rest := r[k + 1..];
    forall i | 0 <= i < |rest| && IsSpace(rest[i]) ensures rest[i] == ' ' {
      assert rest[i] == r[k + 1 + i];
    }
    forall i | 0 <= i < |rest| - 1 && rest[i] == ' ' ensures rest[i + 1] != ' ' {
      assert rest[i] == r[k + 1 + i] && rest[i + 1] == r[k + 2 + i];
    }
  }

  /** The normalized strings are exactly the fixed points of `NormalizeWhitespace`. */
  lemma {:induction false} NormalizeFixesNormalized(r: string)
    requires Normalized(r)
    ensures NormalizeWhitespace(r) == r
    decreases |r|
  {
    if r != [] {
      var w := Word(r);
      if |w| < |r| {
        var rest := r[|w| + 1..];
        assert r == w + " " + rest;
        NormalizedTail(r, |w|);
        NormalizeFixesNormalized(rest);
        SplitWordSpace(w, rest);
        assert Split(rest) != [];
      } else {
        assert r == w + [];
        WordOfPrefix(w, []);
        assert r[|w|..] == [];
      }
    }
  }

  /** `NormalizeWhitespace(s)` is the one normalized string with the same words as `s`. */
  lemma NormalizeUnique(s: string, r: string)
    requires Normalized(r) && Split(r) == Split(s)
    ensures NormalizeWhitespace(s) == r
  {
    NormalizeFixesNormalized(r);
  }

  /** Normalizing twice is normalizing once. */
  lemma NormalizeIdempotent(s: string)
    ensures NormalizeWhitespace(NormalizeWhitespace(s)) == NormalizeWhitespace(s)
  {
    NormalizeFixesNormalized(NormalizeWhitespace(s));
  }

  // ---------------------------------------------------------------
  // str(n) for a count
  // ---------------------------------------------------------------

  predicate IsDigit(c: char)
  {
    '0' <= c <= '9'
  }

  function DigitChar(d: nat): (c: char)
    requires d < 10
    ensures IsDigit(c) && c as int - '0' as int == d
  {
    ('0' as int + d) as char
  }

  /** Python's `str(n)` for a non-negative integer: decimal digits, no leading zero. */
  function Decimal(n: nat): (r: string)
    ensures r != [] && (forall i :: 0 <= i < |r| ==> IsDigit(r[i]))
    ensures r[0] == '0' ==> n == 0 && r == "0"
  {
    if n < 10 then [DigitChar(n)] else Decimal(n / 10) + [DigitChar(n % 10)]
  }

  /** The number a string of decimal digits denotes (Python's `int(s)` on such a string). */
  function DecimalValue(s: string): nat
    requires forall i :: 0 <= i < |s| ==> IsDigit(s[i])
  {
    if s == [] then 0
    else
      assert IsDigit(s[|s| - 1]);
      10 * DecimalValue(s[..|s| - 1]) + (s[|s| - 1] as int - '0' as int)
  }

  /** Reading the count back from its decimal text gives the count. */
  lemma {:induction false} DecimalRoundTrip(n: nat)
    ensures DecimalValue(Decimal(n)) == n
  {
    if n >= 10 {
      var r := Decimal(n);
      assert r[..|r| - 1] == Decimal(n / 10);
      DecimalRoundTrip(n / 10);
    }
  }

  // ---------------------------------------------------------------
  // s.split(c) for a one-character separator
  // ---------------------------------------------------------------

  /** Python's `s.split(c)`: the pieces between occurrences of `c`; there is always at least one. */
  function SplitOn(c: char, s: string): (pieces: seq<string>)
    ensures pieces != []
  {
    if s == [] then
      [[]]
    else
      var rest := SplitOn(c, s[1..]);
      if s[0] == c then [[]] + rest else [[s[0]] + rest[0]] + rest[1..]
  }

  lemma {:induction false} SplitOnNoSeparator(c: char, a: string)
    requires c !in a
    ensures SplitOn(c, a) == [a]
  {
    if a != [] {
      SplitOnNoSeparator(c, a[1..]);
      assert [a[0]] + a[1..] == a;
    }
  }

  lemma {:induction false} SplitOnFirstSeparator(c: char, a: string, b: string)
    requires c !in a
    ensures SplitOn(c, a + [c] + b) == [a] + SplitOn(c, b)
  {
    if a == [] {
      assert a + [c] + b == [c] + b;
      assert ([c] + b)[1..] == b;
    } else {
      assert (a + [c] + b)[1..] == a[1..] + [c] + b;
      SplitOnFirstSeparator(c, a[1..], b);
      assert [a[0]] + a[1..] == a;
    }
  }

  /** `s.split(c)` undoes `c.join(parts)` when no part contains `c`. */
  lemma {:induction false} SplitOnJoin(c: char, parts: seq<string>)
    requires parts != []
    requires forall i :: 0 <= i < |parts| ==> c !in parts[i]
    ensures SplitOn(c, Join([c], parts)) == parts
  {
    if |parts| == 1 {
      SplitOnNoSeparator(c, parts[0]);
    } else {
      SplitOnFirstSeparator(c, parts[0], Join([c], parts[1..]));
      SplitOnJoin(c, parts[1..]);
    }
  }
}
