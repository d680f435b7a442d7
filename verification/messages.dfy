/**
 * The message of a generated debug assertion: the condition is escaped twice over, once
 * for the string literal and once for the format string built from it.
 */
module Messages {
  import opened Ast

  /** Every `c` of `s` replaced by the text `with`. */
  function Replace(s: string, c: char, with: string): string {
    if s == [] then [] else (if s[0] == c then with else [s[0]]) + Replace(s[1..], c, with)
  }

  /** The message on one line. */
  function Flatten(cond: string): string {
    Replace(cond, '\n', " ")
  }

  /** A line feed becomes a space, and every other character stays in its place. */
  lemma {:induction false} FlattenIs(cond: string)
    ensures |Flatten(cond)| == |cond|
    ensures forall i :: 0 <= i < |cond| ==> Flatten(cond)[i] == if cond[i] == '\n' then ' ' else cond[i]
  {
    if cond != [] { FlattenIs(cond[1..]); }
  }

  method EscapeMessage(cond: string) returns (msg: string)
    ensures msg == Escape(Flatten(cond))
  {
    if '\n' in cond {
      msg := Replace(Replace(Replace(Replace(cond, '\n', " "), '\"', "\\\""), '{', "{{"), '}', "}}");
      EscapeIsReplace(Flatten(cond));
    } else {
      msg := Replace(Replace(Replace(cond, '\"', "\\\""), '{', "{{"), '}', "}}");
      EscapeIsReplace(cond);
      NothingToReplace(cond, '\n', " ");
    }
  }

  /** What the three replacements do to one character, and to a whole text. */
  function EscapeChar(c: char): string {
    if c == '\"' then "\\\"" else if c == '{' then "{{" else if c == '}' then "}}" else [c]
  }

  function Escape(s: string): string {
    if s == [] then [] else EscapeChar(s[0]) + Escape(s[1..])
  }

  lemma {:induction false} ReplaceConcat(a: string, b: string, c: char, with: string)
    ensures Replace(a + b, c, with) == Replace(a, c, with) + Replace(b, c, with)
  {
    if a == [] {
      assert a + b == b;
    } else {
      assert (a + b)[0] == a[0] && (a + b)[1..] == a[1..] + b;
      ReplaceConcat(a[1..], b, c, with);
      var first := if a[0] == c then with else [a[0]];
      assert first + (Replace(a[1..], c, with) + Replace(b, c, with)) == first + Replace(a[1..], c, with) + Replace(b, c, with);
    }
  }

  lemma {:induction false} NothingToReplace(s: string, c: char, with: string)
    requires c !in s
    ensures Replace(s, c, with) == s
  {
    if s != [] {
      assert s[0] in s && forall d | d in s[1..] :: d in s;
      NothingToReplace(s[1..], c, with);
    }
  }

  lemma {:induction false} EscapeIsReplace(s: string)
    ensures Replace(Replace(Replace(s, '\"', "\\\""), '{', "{{"), '}', "}}") == Escape(s)
  {
    if s != [] {
      EscapeIsReplace(s[1..]);
      hide Escape;
      var quoted := if s[0] == '\"' then "\\\"" else [s[0]];
      var rest := Replace(s[1..], '\"', "\\\"");
      ReplaceConcat(quoted, rest, '{', "{{");
      ReplaceConcat(Replace(quoted, '{', "{{"), Replace(rest, '{', "{{"), '}', "}}");
      OneEscaped(s[0]);
      EscapeStep(s);
    }
  }

  lemma OneEscaped(c: char)
    ensures var quoted := if c == '\"' then "\\\"" else [c];
      Replace(Replace(quoted, '{', "{{"), '}', "}}") == EscapeChar(c)
  {
    var quoted := if c == '\"' then "\\\"" else [c];
    if c == '{' {
      assert quoted[1..] == "" && "{{"[1..] == "{" && "{"[1..] == "";
      assert Replace(quoted, '{', "{{") == "{{" + "";
      assert Replace("{", '}', "}}") == "{";
      assert Replace("{{", '}', "}}") == "{{";
    } else {
      NothingToReplace(quoted, '{', "{{");
      if c == '}' {
        assert quoted[1..] == "";
        assert Replace(quoted, '}', "}}") == "}}" + "";
      } else {
        NothingToReplace(quoted, '}', "}}");
      }
    }
  }

  lemma EscapeStep(s: string)
    requires s != []
    ensures Escape(s) == EscapeChar(s[0]) + Escape(s[1..])
  {
  }

  // ----- What Rust makes of the message -----

  /** The character a simple escape `\c` stands for. */
  function SimpleEscape(c: char): Option<char> {
    if c == 'n' then Some('\n') else if c == 'r' then Some('\r') else if c == 't' then Some('\t')
    else if c == '0' then Some('\0') else if c == '\\' || c == '\'' || c == '\"' then Some(c)
    else None
  }

  function HexDigit(c: char): Option<nat> {
    if '0' <= c <= '9' then Some(c as nat - '0' as nat)
    else if 'a' <= c <= 'f' then Some(c as nat - 'a' as nat + 10)
    else if 'A' <= c <= 'F' then Some(c as nat - 'A' as nat + 10)
    else None
  }

  /**
   * The value of a string literal with the body `t`; `None` if it is not one literal.
   * An escape is `\c` or `\xHH`; in a body whose braces are doubled no `\u{...}` occurs.
   * A carriage return that no line feed follows is no part of a literal, and a body
   * without line feeds has no other.
   */
  function Literal(t: string): Option<string> {
    if t == [] then Some([])
    else if t[0] == '\"' || t[0] == '\r' then None
    else if t[0] != '\\' then Cons(t[0], Literal(t[1..]))
    else if |t| < 2 then None
    else if t[1] == 'x' then
      if |t| < 4 || HexDigit(t[2]).None? || HexDigit(t[3]).None? || HexDigit(t[2]).value >= 8 then None
      else Cons((16 * HexDigit(t[2]).value + HexDigit(t[3]).value) as char, Literal(t[4..]))
    else if SimpleEscape(t[1]).None? then None
    else Cons(SimpleEscape(t[1]).value, Literal(t[2..]))
  }

  function Cons(c: char, rest: Option<string>): Option<string> {
    if rest.Some? then Some([c] + rest.value) else None
  }

  predicate IsBrace(c: char) { c == '{' || c == '}' }

  /** The output of a format string without arguments: a brace must be doubled. */
  function Formatted(f: string): Option<string> {
    if f == [] then Some([])
    else if !IsBrace(f[0]) then Cons(f[0], Formatted(f[1..]))
    else if |f| < 2 || f[1] != f[0] then None
    else Cons(f[0], Formatted(f[2..]))
  }

  /** The message that a failing assertion reports; `None` when the code does not compile. */
  function Reported(msg: string): Option<string> {
    var f := Literal(msg);
    if f.Some? then Formatted(f.value) else None
  }

  /** The text with its braces doubled. */
  function Doubled(s: string): string {
    if s == [] then [] else (if IsBrace(s[0]) then [s[0], s[0]] else [s[0]]) + Doubled(s[1..])
  }

  lemma DoubledStep(s: string)
    requires s != []
    ensures Doubled(s) == (if IsBrace(s[0]) then [s[0], s[0]] else [s[0]]) + Doubled(s[1..])
  {
  }

  lemma LiteralStep(c: char, rest: string)
    requires c != '\\' && c != '\r'
    ensures Literal(EscapeChar(c) + rest)
         == if IsBrace(c) then Cons(c, Cons(c, Literal(rest))) else Cons(c, Literal(rest))
  {
    var t := EscapeChar(c) + rest;
    if c == '\"' {
      assert t[0] == '\\' && t[1] == '\"' && t[2..] == rest;
    } else if IsBrace(c) {
      assert t[0] == c && t[1..][0] == c && t[1..][1..] == rest;
    } else {
      assert t[0] == c && t[1..] == rest;
    }
  }

  lemma {:induction false} LiteralDoubles(s: string)
    requires '\\' !in s && '\r' !in s
    ensures Literal(Escape(s)) == Some(Doubled(s))
  {
    if s != [] {
      hide Literal, Escape, Doubled;
      TailLacks(s, '\\');
      TailLacks(s, '\r');
      LiteralDoubles(s[1..]);
      OneDoubles(s);
    }
  }

  lemma TailLacks(s: string, c: char)
    requires s != [] && c !in s
    ensures s[0] != c && c !in s[1..]
  {
  }

  lemma OneDoubles(s: string)
    requires s != [] && s[0] != '\\' && s[0] != '\r' && Literal(Escape(s[1..])) == Some(Doubled(s[1..]))
    ensures Literal(Escape(s)) == Some(Doubled(s))
  {
    hide Literal, EscapeChar, Escape, Doubled, IsBrace;
    EscapeStep(s);
    DoubledStep(s);
    LiteralStep(s[0], Escape(s[1..]));
    var c, d := s[0], Doubled(s[1..]);
    assert [c] + ([c] + d) == [c, c] + d;
  }

  lemma {:induction false} FormatUndoubles(s: string)
    ensures Formatted(Doubled(s)) == Some(s)
  {
    if s != [] {
      FormatUndoubles(s[1..]);
      var d := Doubled(s);
      assert s == [s[0]] + s[1..];
      if IsBrace(s[0]) { assert d[2..] == Doubled(s[1..]); } else { assert d[1..] == Doubled(s[1..]); }
    }
  }

  /** A brace counts half, since two of them print as one. */
  function Weight(f: string): nat {
    if f == [] then 0 else (if IsBrace(f[0]) then 1 else 2) + Weight(f[1..])
  }

  lemma {:induction false} FormattedLength(f: string)
    ensures Formatted(f).Some? ==> 2 * |Formatted(f).value| == Weight(f)
  {
    if f != [] {
      if !IsBrace(f[0]) {
        FormattedLength(f[1..]);
      } else if |f| >= 2 {
        assert f[1..][0] == f[1] && f[1..][1..] == f[2..];
        FormattedLength(f[2..]);
      }
    }
  }

  lemma ConsWeight(c: char, rest: Option<string>)
    ensures rest.Some? ==> Weight(Cons(c, rest).value) == (if IsBrace(c) then 1 else 2) + Weight(rest.value)
  {
    if rest.Some? { assert ([c] + rest.value)[1..] == rest.value; }
  }

  /** A backslash of the condition swallows what follows it, so the message gets shorter; a carriage return breaks it. */
  lemma {:induction false} LiteralWeight(s: string)
    ensures var f := Literal(Escape(s));
      f.Some? ==> Weight(f.value) <= 2 * |s| && ('\\' in s || '\r' in s ==> Weight(f.value) < 2 * |s|)
    decreases |s|
  {
    if s != [] {
      var rest := Escape(s[1..]);
      if s[0] == '\r' {
        assert Escape(s)[0] == '\r';
      } else if s[0] != '\\' {
        LiteralWeight(s[1..]);
        LiteralStep(s[0], rest);
        ConsWeight(s[0], Literal(rest));
        ConsWeight(s[0], Cons(s[0], Literal(rest)));
        assert s == [s[0]] + s[1..];
      } else {
        BackslashWeight(s);
      }
    }
  }

  lemma {:induction false} BackslashWeight(s: string)
    requires s != [] && s[0] == '\\'
    ensures var f := Literal(Escape(s)); f.Some? ==> Weight(f.value) < 2 * |s|
    decreases |s|, 1
  {
    var t := Escape(s);
    assert t == ['\\'] + Escape(s[1..]);
    if |s| > 1 {
      var c, after := s[1], Escape(s[2..]);
      assert s[1..][1..] == s[2..];
      assert t == ['\\'] + (EscapeChar(c) + after);
      if c == '\"' || IsBrace(c) {
        SpecialAfterBackslash(c, after);
      } else {
        assert t[1] == c && t[2..] == after;
        if c == 'x' {
          HexWeight(s, t);
        } else {
          LiteralWeight(s[2..]);
          if SimpleEscape(c).Some? { ConsWeight(SimpleEscape(c).value, Literal(after)); }
        }
      }
    }
  }

  /** A quote or a brace behind a backslash breaks the literal. */
  lemma SpecialAfterBackslash(c: char, after: string)
    requires c == '\"' || IsBrace(c)
    ensures Literal(['\\'] + (EscapeChar(c) + after)) == None
  {
    var t := ['\\'] + (EscapeChar(c) + after);
    assert t[1] == EscapeChar(c)[0];
    if c == '\"' { assert t[2..][0] == c; }
  }

  lemma {:induction false} HexWeight(s: string, t: string)
    requires |s| > 1 && t == Escape(s) && |t| >= 2 && t[0] == '\\' && t[1] == 'x' && t[2..] == Escape(s[2..])
    ensures Literal(t).Some? ==> Weight(Literal(t).value) < 2 * |s|
    decreases |s|, 0
  {
    hide Escape, Weight;
    if |t| >= 4 && HexDigit(t[2]).Some? && HexDigit(t[3]).Some? {
      HexTail(s[2..], t[2..]);
      assert s[2..][2..] == s[4..] && t[2..][2..] == t[4..];
      LiteralWeight(s[4..]);
      ConsWeight((16 * HexDigit(t[2]).value + HexDigit(t[3]).value) as char, Literal(t[4..]));
    }
  }

  lemma HexTail(s: string, t: string)
    requires t == Escape(s) && |t| >= 2 && HexDigit(t[0]).Some? && HexDigit(t[1]).Some?
    ensures |s| >= 2 && t[2..] == Escape(s[2..])
  {
    hide Escape, HexDigit;
    HexIsPlain(s);
    assert t[1..][0] == t[1];
    HexIsPlain(s[1..]);
    assert s[1..][1..] == s[2..] && t[1..][1..] == t[2..];
  }

  /** A text whose escaped form starts with a hexadecimal digit starts with that digit. */
  lemma HexIsPlain(u: string)
    requires Escape(u) != [] && HexDigit(Escape(u)[0]).Some?
    ensures u != [] && Escape(u)[1..] == Escape(u[1..])
  {
    assert Escape(u)[0] == EscapeChar(u[0])[0];
  }

  /** A failing assertion reports its own condition exactly when that has no backslash and no carriage return. */
  lemma MessageIsConditionIff(cond: string)
    ensures Reported(Escape(Flatten(cond))) == Some(Flatten(cond)) <==> '\\' !in cond && '\r' !in cond
  {
    var s := Flatten(cond);
    FlattenKeeps(cond, '\\');
    FlattenKeeps(cond, '\r');
    if '\\' !in s && '\r' !in s {
      LiteralDoubles(s);
      FormatUndoubles(s);
    } else {
      LiteralWeight(s);
      var f := Literal(Escape(s));
      if f.Some? { FormattedLength(f.value); }
    }
  }

  lemma {:induction false} FlattenKeeps(cond: string, c: char)
    requires c != '\n' && c != ' '
    ensures c in Flatten(cond) <==> c in cond
  {
    if cond != [] {
      FlattenKeeps(cond[1..], c);
      assert cond == [cond[0]] + cond[1..];
    }
  }
}
