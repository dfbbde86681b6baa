/**
 * The chat page's `escapeHtml`: five global replacements applied in turn,
 * `&` first, so that the entities written by the later ones are not
 * escaped again.
 *
 * The chain is modelled literally with `ReplaceAll`. Its meaning is given
 * by a character-by-character encoding, `Encoded`, and the two are proved
 * equal; the properties (no markup character survives, every `&` starts an
 * entity, decoding restores the text) are proved about the encoding.
 */
module HtmlEscape {

  /** `s.replace(/p/g, rep)` for a literal pattern: matches taken left to right, never overlapping. */
  function ReplaceAll(s: string, p: string, rep: string): (r: string)
    requires p != []
    ensures |rep| >= |p| ==> |r| >= |s|
    decreases |s|
  {
    if s == [] then []
    else if p <= s then rep + ReplaceAll(s[|p|..], p, rep)
    else [s[0]] + ReplaceAll(s[1..], p, rep)
  }

  /**
   * `escapeHtml(text)`, as the page writes it. Its meaning: every markup
   * character replaced by its entity, one character at a time.
   */
  function EscapeHtml(text: string): (r: string)
    ensures r == Encoded(AllSteps, text)
  {
    EscapeHtmlSteps(text);
    var s := ReplaceAll(text, "&", "&amp;");
    var s := ReplaceAll(s, "<", "&lt;");
    var s := ReplaceAll(s, ">", "&gt;");
    var s := ReplaceAll(s, "\"", "&quot;");
    ReplaceAll(s, "'", "&#039;")
  }

  /** The characters `escapeHtml` replaces, in the order of its chain, and what each becomes. */
  const Specials: seq<char> := ['&', '<', '>', '"', '\'']
  const Entities: seq<string> := ["&amp;", "&lt;", "&gt;", "&quot;", "&#039;"]

  /** One character after the replacements numbered in `done` have run. */
  function EncodeChar(done: set<nat>, c: char): string
  {
    if c == '&' && 0 in done then "&amp;"
    else if c == '<' && 1 in done then "&lt;"
    else if c == '>' && 2 in done then "&gt;"
    else if c == '"' && 3 in done then "&quot;"
    else if c == '\'' && 4 in done then "&#039;"
    else [c]
  }

  /** The text after the replacements numbered in `done` have run, character by character. */
  function Encoded(done: set<nat>, s: string): string
  {
    if s == [] then [] else EncodeChar(done, s[0]) + Encoded(done, s[1..])
  }

  const AllSteps: set<nat> := {0, 1, 2, 3, 4}

  /** The inverse `escapeHtml` is meant to have: each entity back to its character, `&amp;` last. */
  function UnescapeHtml(html: string): string
  {
    var s := ReplaceAll(html, "&#039;", "'");
    var s := ReplaceAll(s, "&quot;", "\"");
    var s := ReplaceAll(s, "&gt;", ">");
    var s := ReplaceAll(s, "&lt;", "<");
    ReplaceAll(s, "&amp;", "&")
  }

  // ---------------------------------------------------------------
  // ReplaceAll over concatenations
  // ---------------------------------------------------------------

  /** Text without the pattern's first character passes through unchanged. */
  lemma {:induction false} ReplaceAllSkips(u: string, t: string, p: string, rep: string)
    requires p != [] && p[0] !in u
    ensures ReplaceAll(u + t, p, rep) == u + ReplaceAll(t, p, rep)
  {
    if u != [] {
      assert (u + t)[0] == u[0];
      assert (u + t)[1..] == u[1..] + t;
      ReplaceAllSkips(u[1..], t, p, rep);
    } else {
      assert u + t == t;
    }
  }

  /** An occurrence of the pattern at the front is replaced. */
  lemma ReplaceAllMatch(t: string, p: string, rep: string)
    requires p != []
    ensures ReplaceAll(p + t, p, rep) == rep + ReplaceAll(t, p, rep)
  {
    assert p <= p + t;
    assert (p + t)[|p|..] == t;
  }

  /** A piece that starts like the pattern but differs at its second character passes through. */
  lemma ReplaceAllNearMiss(u: string, t: string, p: string, rep: string)
    requires |p| >= 2 && |u| >= 2 && u[0] == p[0] && u[1] != p[1] && p[0] !in u[1..]
    ensures ReplaceAll(u + t, p, rep) == u + ReplaceAll(t, p, rep)
  {
    assert (u + t)[1] == u[1];
    assert !(p <= u + t);
    assert (u + t)[1..] == u[1..] + t;
    ReplaceAllSkips(u[1..], t, p, rep);
  }

  // ---------------------------------------------------------------
  // The chain is the encoding
  // ---------------------------------------------------------------

  lemma EncodedNothing(s: string)
    ensures Encoded({}, s) == s
  {
  }

  /** The entities hold no markup character, and `&` only at their start. */
  lemma EntityChars(i: nat)
    requires i < 5
    ensures Entities[i][0] == '&' && |Entities[i]| >= 4
    ensures '&' !in Entities[i][1..]
    ensures forall m :: 1 <= m < 5 ==> Specials[m] !in Entities[i]
  {
  }

  /** A replaced character's entity: its second character tells it apart from every other entity. */
  lemma EntitiesDiffer(i: nat, m: nat)
    requires i < 5 && m < 5 && i != m
    ensures Entities[i][1] != Entities[m][1]
  {
  }

  lemma EncodeCharCases(done: set<nat>, c: char)
    ensures (exists m :: 0 <= m < 5 && m in done && c == Specials[m] && EncodeChar(done, c) == Entities[m])
            || (EncodeChar(done, c) == [c] && forall m :: 0 <= m < 5 && m in done ==> c != Specials[m])
  {
    if c == '&' && 0 in done { assert c == Specials[0]; }
    else if c == '<' && 1 in done { assert c == Specials[1]; }
    else if c == '>' && 2 in done { assert c == Specials[2]; }
    else if c == '"' && 3 in done { assert c == Specials[3]; }
    else if c == '\'' && 4 in done { assert c == Specials[4]; }
  }

  /** Before step `i`, the character it replaces still stands for itself; afterwards it is its entity. */
  lemma PieceReplaced(done: set<nat>, i: nat)
    requires i < 5 && i !in done
    ensures EncodeChar(done, Specials[i]) == [Specials[i]]
    ensures EncodeChar(done + {i}, Specials[i]) == Entities[i]
  {
  }

  /** Step `i` leaves every other character's piece alone, and finds nothing to replace in it. */
  lemma PieceKept(done: set<nat>, i: nat, c: char)
    requires i < 5 && i !in done && (i == 0 ==> done == {}) && c != Specials[i]
    ensures EncodeChar(done + {i}, c) == EncodeChar(done, c)
    ensures Specials[i] !in EncodeChar(done, c)
  {
    EncodeCharCases(done, c);
    if EncodeChar(done, c) != [c] {
      var m :| 0 <= m < 5 && m in done && c == Specials[m] && EncodeChar(done, c) == Entities[m];
      EntityChars(m);
    }
  }

  /** Running replacement `i` on the encoding of steps `done` adds step `i`. */
  lemma {:induction false} ReplaceStep(done: set<nat>, i: nat, s: string)
    requires i < 5 && i !in done && (i == 0 ==> done == {})
    ensures ReplaceAll(Encoded(done, s), [Specials[i]], Entities[i]) == Encoded(done + {i}, s)
  {
    if s != [] {
      var c, rest := s[0], Encoded(done, s[1..]);
      ReplaceStep(done, i, s[1..]);
      if c == Specials[i] {
        PieceReplaced(done, i);
        ReplaceAllMatch(rest, [Specials[i]], Entities[i]);
      } else {
        PieceKept(done, i, c);
        ReplaceAllSkips(EncodeChar(done, c), rest, [Specials[i]], Entities[i]);
      }
    }
  }

  /** The chain of `escapeHtml`, step by step, adds one replacement to the encoding at a time. */
  lemma EscapeHtmlSteps(text: string)
    ensures ReplaceAll(ReplaceAll(ReplaceAll(ReplaceAll(ReplaceAll(text, "&", "&amp;"), "<", "&lt;"),
              ">", "&gt;"), "\"", "&quot;"), "'", "&#039;") == Encoded(AllSteps, text)
  {
    EncodedNothing(text);
    assert [Specials[0]] == "&" && [Specials[1]] == "<" && [Specials[2]] == ">";
    assert [Specials[3]] == "\"" && [Specials[4]] == "'";
    ReplaceStep({}, 0, text);
    assert {} + {0} == {0};
    ReplaceStep({0}, 1, text);
    assert {0} + {1} == {0, 1};
    ReplaceStep({0, 1}, 2, text);
    assert {0, 1} + {2} == {0, 1, 2};
    ReplaceStep({0, 1, 2}, 3, text);
    assert {0, 1, 2} + {3} == {0, 1, 2, 3};
    ReplaceStep({0, 1, 2, 3}, 4, text);
    assert {0, 1, 2, 3} + {4} == AllSteps;
  }

  // ---------------------------------------------------------------
  // Decoding
  // ---------------------------------------------------------------

  /** Undoing replacement `i` on the encoding of steps `done` removes step `i`; `&amp;` must still be encoded. */
  lemma {:induction false} UndoStep(done: set<nat>, i: nat, s: string)
    requires i < 5 && i in done && 0 in done
    ensures ReplaceAll(Encoded(done, s), Entities[i], [Specials[i]]) == Encoded(done - {i}, s)
  {
    if s != [] {
      var c := s[0];
      var piece := EncodeChar(done, c);
      var rest := Encoded(done, s[1..]);
      UndoStep(done, i, s[1..]);
      EncodeCharCases(done, c);
      EntityChars(i);
      if piece == [c] {
        assert c != '&' by { assert Specials[0] == '&'; }
        assert EncodeChar(done - {i}, c) == [c];
        ReplaceAllSkips(piece, rest, Entities[i], [Specials[i]]);
      } else {
        var m :| 0 <= m < 5 && m in done && c == Specials[m] && piece == Entities[m];
        if m == i {
          assert EncodeChar(done - {i}, c) == [c];
          ReplaceAllMatch(rest, Entities[i], [Specials[i]]);
        } else {
          assert EncodeChar(done - {i}, c) == piece;
          EntityChars(m);
          EntitiesDiffer(m, i);
          ReplaceAllNearMiss(piece, rest, Entities[i], [Specials[i]]);
        }
      }
    }
  }

  /** Decoding what `escapeHtml` produced gives back the text. */
  lemma UnescapeEscape(text: string)
    ensures UnescapeHtml(EscapeHtml(text)) == text
  {
    UndoStep(AllSteps, 4, text);
    assert AllSteps - {4} == {0, 1, 2, 3};
    UndoStep({0, 1, 2, 3}, 3, text);
    assert {0, 1, 2, 3} - {3} == {0, 1, 2};
    UndoStep({0, 1, 2}, 2, text);
    assert {0, 1, 2} - {2} == {0, 1};
    UndoStep({0, 1}, 1, text);
    assert {0, 1} - {1} == {0};
    UndoStep({0}, 0, text);
    assert {0} - {0} == {};
    EncodedNothing(text);
  }

  // ---------------------------------------------------------------
  // What the output looks like
  // ---------------------------------------------------------------

  /** One of the five entities begins at the front of `s`. */
  predicate StartsEntity(s: string)
  {
    exists m :: 0 <= m < 5 && Entities[m] <= s
  }

  /** No `<`, `>`, `"` or `'` is left in the escaped text. */
  lemma {:induction false} EncodedHasNoMarkup(s: string)
    ensures forall m :: 1 <= m < 5 ==> Specials[m] !in Encoded(AllSteps, s)
  {
    if s != [] {
      EncodedHasNoMarkup(s[1..]);
      EncodeCharCases(AllSteps, s[0]);
      if EncodeChar(AllSteps, s[0]) != [s[0]] {
        var m :| 0 <= m < 5 && s[0] == Specials[m] && EncodeChar(AllSteps, s[0]) == Entities[m];
        EntityChars(m);
      }
    }
  }

  /** In one character's piece an `&` can only be the first character of an entity. */
  lemma PieceAmpersand(c: char, j: int)
    requires 0 <= j < |EncodeChar(AllSteps, c)| && EncodeChar(AllSteps, c)[j] == '&'
    ensures j == 0 && StartsEntity(EncodeChar(AllSteps, c))
  {
    var piece := EncodeChar(AllSteps, c);
    EncodeCharCases(AllSteps, c);
    assert c == '&' ==> c == Specials[0];
    forall m | 0 <= m < 5 ensures Entities[m][0] == '&' && '&' !in Entities[m][1..] {
      EntityChars(m);
    }
    assert forall k :: 1 <= k < |piece| ==> piece[k] == piece[1..][k - 1];
    assert forall m :: 0 <= m < 5 && piece == Entities[m] ==> Entities[m] <= piece;
  }

  /** Every `&` in the escaped text starts one of the five entities. */
  lemma {:induction false} EncodedAmpersandsStartEntities(s: string)
    ensures forall j :: 0 <= j < |Encoded(AllSteps, s)| && Encoded(AllSteps, s)[j] == '&'
              ==> StartsEntity(Encoded(AllSteps, s)[j..])
  {
    if s != [] {
      var piece := EncodeChar(AllSteps, s[0]);
      var rest := Encoded(AllSteps, s[1..]);
      var r := piece + rest;
      assert Encoded(AllSteps, s) == r;
      EncodedAmpersandsStartEntities(s[1..]);
      forall j | 0 <= j < |r| && r[j] == '&' ensures StartsEntity(r[j..]) {
        if j < |piece| {
          PieceAmpersand(s[0], j);
          var m :| 0 <= m < 5 && Entities[m] <= piece;
          assert r[j..] == r;
          assert Entities[m] <= r;
        } else {
          assert r[j..] == rest[j - |piece|..];
        }
      }
    }
  }

  /** The escaped text: no markup character, every `&` an entity, and it decodes back to the text. */
  lemma EscapeHtmlSafe(text: string)
    ensures forall m :: 1 <= m < 5 ==> Specials[m] !in EscapeHtml(text)
    ensures forall j :: 0 <= j < |EscapeHtml(text)| && EscapeHtml(text)[j] == '&'
              ==> StartsEntity(EscapeHtml(text)[j..])
    ensures UnescapeHtml(EscapeHtml(text)) == text
  {
    EncodedHasNoMarkup(text);
    EncodedAmpersandsStartEntities(text);
    UnescapeEscape(text);
  }

  /** Text holding none of the five characters `escapeHtml` replaces. */
  predicate Plain(s: string)
  {
    forall k :: 0 <= k < |s| ==> s[k] !in Specials
  }

  lemma PlainChar(c: char)
    requires c !in Specials
    ensures EncodeChar(AllSteps, c) == [c]
  {
    assert c != Specials[0] && c != Specials[1] && c != Specials[2];
    assert c != Specials[3] && c != Specials[4];
  }

  /** Plain text is left as it is. */
  lemma {:induction false} EncodedPlain(s: string)
    requires Plain(s)
    ensures Encoded(AllSteps, s) == s
  {
    if s != [] {
      PlainChar(s[0]);
      assert Plain(s[1..]) by {
        forall k | 0 <= k < |s[1..]| ensures s[1..][k] !in Specials {
          assert s[1..][k] == s[k + 1];
        }
      }
      EncodedPlain(s[1..]);
    }
  }

  lemma {:induction false} EncodedAppend(a: string, b: string)
    ensures Encoded(AllSteps, a + b) == Encoded(AllSteps, a) + Encoded(AllSteps, b)
  {
    if a == [] {
      assert a + b == b;
    } else {
      assert (a + b)[0] == a[0];
      assert (a + b)[1..] == a[1..] + b;
      EncodedAppend(a[1..], b);
    }
  }

  /** Escaping works piece by piece: plain text is kept, and the order of the text is kept. */
  lemma EscapeHtmlPlainAndAppend(a: string, b: string)
    ensures Plain(a) ==> EscapeHtml(a) == a
    ensures EscapeHtml(a + b) == EscapeHtml(a) + EscapeHtml(b)
  {
    EncodedAppend(a, b);
    if Plain(a) {
      EncodedPlain(a);
    }
  }

  /** How much longer the escaped text is than `s`: 4 per `&`, 3 per `<` or `>`, 5 per `"` or `'`. */
  function Growth(s: string): int
  {
    var count := multiset(s);
    4 * count['&'] + 3 * (count['<'] + count['>']) + 5 * (count['"'] + count['\''])
  }

  lemma PieceLength(c: char)
    ensures |EncodeChar(AllSteps, c)| == 1 + Growth([c])
  {
    assert multiset([c]) == multiset{c};
  }

  lemma {:induction false} EncodedLength(s: string)
    ensures |Encoded(AllSteps, s)| == |s| + Growth(s)
  {
    if s != [] {
      assert s == [s[0]] + s[1..];
      assert multiset(s) == multiset([s[0]]) + multiset(s[1..]);
      PieceLength(s[0]);
      EncodedLength(s[1..]);
    }
  }

  /** The length of the escaped text, counted by the characters replaced. */
  lemma EscapeHtmlLength(text: string)
    ensures |EscapeHtml(text)| == |text| + Growth(text)
  {
    EncodedLength(text);
  }

  /**
   * `&` is replaced first, so `<` becomes `&lt;` and not `&amp;lt;`; text
   * that is already escaped, such as `&lt;`, is escaped again.
   */
  lemma EscapeHtmlExamples(w: string)
    requires Plain(w)
    ensures EscapeHtml("<" + w) == "&lt;" + w
    ensures EscapeHtml("&" + w) == "&amp;" + w
  {
    EncodedPlain(w);
    EncodedAppend("<", w);
    EncodedAppend("&", w);
    assert Encoded(AllSteps, "<") == "&lt;";
    assert Encoded(AllSteps, "&") == "&amp;";
  }
}
