/**
 The escape in `inject_markdown_content` (main.py:2148-2158): before the
 Markdown text is placed between backticks in a JavaScript template literal,
 three chained `str.replace` calls put a backslash before every backslash,
 backtick and dollar sign.
 */
module MarkdownEscape {

  /** The characters that would end the literal, start an escape or start `${...}`. */
  predicate Special(c: char) {
    c == '\\' || c == '`' || c == '$'
  }

  /** `s.replace(target, replacement)` for a one-character `target`. */
  function ReplaceChar(s: string, target: char, replacement: string): string
    decreases |s|
  {
    if s == [] then []
    else (if s[0] == target then replacement else [s[0]]) + ReplaceChar(s[1..], target, replacement)
  }

  /** `content.replace('\\', '\\\\').replace('`', '\\`').replace('$', '\\$')`. */
  function Escape(content: string): string {
    ReplaceChar(ReplaceChar(ReplaceChar(content, '\\', "\\\\"), '`', "\\`"), '$', "\\$")
  }

  // ---------------------------------------------------------------------------
  // The reference: one character at a time

  function EscapeChar(c: char): string {
    if Special(c) then ['\\', c] else [c]
  }

  /** Each special character is preceded by a backslash; every other character is kept. */
  function EscapeEach(s: string): string
    decreases |s|
  {
    if s == [] then [] else EscapeChar(s[0]) + EscapeEach(s[1..])
  }

  function CountSpecial(s: string): nat
    decreases |s|
  {
    if s == [] then 0 else (if Special(s[0]) then 1 else 0) + CountSpecial(s[1..])
  }

  lemma {:induction false} ReplaceCharAppend(a: string, b: string, target: char, replacement: string)
    ensures ReplaceChar(a + b, target, replacement) == ReplaceChar(a, target, replacement) + ReplaceChar(b, target, replacement)
    decreases |a|
  {
    if a == [] {
      assert a + b == b;
    } else {
      assert (a + b)[0] == a[0];
      assert (a + b)[1..] == a[1..] + b;
      ReplaceCharAppend(a[1..], b, target, replacement);
      var head := if a[0] == target then replacement else [a[0]];
      var x := ReplaceChar(a[1..], target, replacement);
      var y := ReplaceChar(b, target, replacement);
      assert (head + x) + y == head + (x + y);
    }
  }

  /** The chained replacements do not interfere: a backslash the first pass inserts is never
      touched again, so the three passes escape each character independently. */
  lemma {:induction false} EscapeIsPerCharacter(s: string)
    ensures Escape(s) == EscapeEach(s)
    decreases |s|
  {
    if s != [] {
      var c := s[0];
      var t := s[1..];
      assert s == [c] + t;
      var r1 := ReplaceChar([c], '\\', "\\\\");
      var r2 := ReplaceChar(r1, '`', "\\`");
      ReplaceCharAppend([c], t, '\\', "\\\\");
      ReplaceCharAppend(r1, ReplaceChar(t, '\\', "\\\\"), '`', "\\`");
      ReplaceCharAppend(r2, ReplaceChar(ReplaceChar(t, '\\', "\\\\"), '`', "\\`"), '$', "\\$");
      assert ReplaceChar(r2, '$', "\\$") == EscapeChar(c) by {
        assert ReplaceChar([], '\\', "\\\\") == [];
        if c == '\\' {
          assert r1 == "\\\\";
          assert r1[1..] == "\\";
          assert r2 == "\\\\";
        } else if c == '`' {
          assert r1 == "`";
          assert r2 == "\\`";
          assert r2[1..] == "`";
        } else if c == '$' {
          assert r1 == "$";
          assert r2 == "$";
        } else {
          assert r1 == [c];
          assert r2 == [c];
        }
      }
      EscapeIsPerCharacter(t);
    }
  }

  /** The escaped text is one character longer per special character. */
  lemma {:induction false} EscapeLength(s: string)
    ensures |Escape(s)| == |s| + CountSpecial(s)
    decreases |s|
  {
    EscapeIsPerCharacter(s);
    EscapeEachLength(s);
  }

  lemma {:induction false} EscapeEachLength(s: string)
    ensures |EscapeEach(s)| == |s| + CountSpecial(s)
    decreases |s|
  {
    if s != [] {
      EscapeEachLength(s[1..]);
    }
  }

  // ---------------------------------------------------------------------------
  // Reading the literal back

  /** How the template literal's cooked value reads the text: a backslash followed by a
      special character stands for that character. */
  function Unescape(t: string): string
    decreases |t|
  {
    if t == [] then []
    else if |t| >= 2 && t[0] == '\\' && Special(t[1]) then [t[1]] + Unescape(t[2..])
    else [t[0]] + Unescape(t[1..])
  }

  /** Text that stays inside the literal and reads back literally: every backslash begins
      an escape of a special character, and no backtick or dollar sign stands bare. */
  predicate LiteralSafe(t: string)
    decreases |t|
  {
    if t == [] then true
    else if t[0] == '\\' then |t| >= 2 && Special(t[1]) && LiteralSafe(t[2..])
    else !Special(t[0]) && LiteralSafe(t[1..])
  }

  lemma UnescapeAppendChar(c: char, t: string)
    ensures Unescape(EscapeChar(c) + t) == [c] + Unescape(t)
  {
    if Special(c) {
      assert (EscapeChar(c) + t)[2..] == t;
    } else {
      assert (EscapeChar(c) + t)[1..] == t;
    }
  }

  /** Un-escaping gives back the original Markdown text. */
  lemma {:induction false} UnescapeEscape(s: string)
    ensures Unescape(Escape(s)) == s
  {
    EscapeIsPerCharacter(s);
    UnescapeEscapeEach(s);
  }

  lemma {:induction false} UnescapeEscapeEach(s: string)
    ensures Unescape(EscapeEach(s)) == s
    decreases |s|
  {
    if s != [] {
      UnescapeAppendChar(s[0], EscapeEach(s[1..]));
      UnescapeEscapeEach(s[1..]);
      assert s == [s[0]] + s[1..];
    }
  }

  /** No backtick can close the literal early and no `${` can open an interpolation. */
  lemma LiteralSafeEscape(s: string)
    ensures LiteralSafe(Escape(s))
  {
    EscapeIsPerCharacter(s);
    LiteralSafeEscapeEach(s);
  }

  lemma {:induction false} LiteralSafeEscapeEach(s: string)
    ensures LiteralSafe(EscapeEach(s))
    decreases |s|
  {
    if s != [] {
      var t := EscapeEach(s[1..]);
      LiteralSafeEscapeEach(s[1..]);
      if Special(s[0]) {
        assert (EscapeChar(s[0]) + t)[2..] == t;
      } else {
        assert (EscapeChar(s[0]) + t)[1..] == t;
      }
    }
  }

  /** In particular every backtick of the escaped text directly follows a backslash. */
  lemma {:induction false} LiteralSafeBackticks(t: string)
    requires LiteralSafe(t)
    ensures forall i :: 0 <= i < |t| && t[i] == '`' ==> i > 0 && t[i - 1] == '\\'
    decreases |t|
  {
    if t != [] {
      if t[0] == '\\' {
        LiteralSafeBackticks(t[2..]);
        assert forall i :: 2 <= i < |t| ==> t[i] == t[2..][i - 2];
      } else {
        LiteralSafeBackticks(t[1..]);
        assert forall i :: 1 <= i < |t| ==> t[i] == t[1..][i - 1];
      }
    }
  }

  lemma EscapeEachCons(c: char, u: string)
    ensures EscapeEach([c] + u) == EscapeChar(c) + EscapeEach(u)
  {
    assert ([c] + u)[1..] == u;
  }

  /** Conversely every literal-safe text is the escape of exactly one Markdown text, the
      one it reads back as. */
  lemma {:induction false} EscapeUnescape(t: string)
    requires LiteralSafe(t)
    ensures Escape(Unescape(t)) == t
    decreases |t|
  {
    EscapeIsPerCharacter(Unescape(t));
    if t != [] {
      if t[0] == '\\' {
        EscapeUnescape(t[2..]);
        EscapeIsPerCharacter(Unescape(t[2..]));
        EscapeEachCons(t[1], Unescape(t[2..]));
        assert t == [t[0], t[1]] + t[2..];
      } else {
        EscapeUnescape(t[1..]);
        EscapeIsPerCharacter(Unescape(t[1..]));
        EscapeEachCons(t[0], Unescape(t[1..]));
        assert t == [t[0]] + t[1..];
      }
    }
  }
}
