/** The scanner for Rust signatures: the name, the parameter list and the return type. */
module Signatures {
  import opened Ast
  import opened Parameters

  datatype Signature = Signature(name: string, params: seq<(string, string)>, ret: string)

  /** `Crashed`: the slice after the closing parenthesis starts past the end of the text, or inside a character. */
  datatype Outcome = Parsed(sig: Signature) | Skipped | Crashed

  /** Offset of the parenthesis that closes `depth` open ones. */
  function MatchClose(s: string, depth: nat): Option<nat> {
    if s == [] then None
    else if s[0] == ')' && depth == 1 then Some(0)
    else Shift(MatchClose(s[1..], if s[0] == '(' then depth + 1 else if s[0] == ')' && depth > 0 then depth - 1 else depth), 1)
  }

  function Shift(i: Option<nat>, n: nat): Option<nat> {
    if i.Some? then Some(i.value + n) else None
  }

  function ReturnType(afterClose: string): string {
    var arrow := Find(afterClose, "->");
    if arrow.None? || arrow.value + 2 > |afterClose| then "()"
    else Trim(Before(Before(Trim(afterClose[arrow.value + 2..]), "{"), "where"))
  }

  function FnName(beforeParen: string): string {
    var raw := Trim(beforeParen);
    var angle := Find(raw, "<");
    if angle.Some? && angle.value <= |raw| then Trim(raw[..angle.value]) else raw
  }

  function FnSignature(sig: string): Outcome {
    var open := Find(sig, "(");
    if open.None? || open.value >= |sig| then Skipped else
    var name, afterOpen := FnName(sig[..open.value]), sig[open.value + 1..];
    var close := MatchClose(afterOpen, 1);
    if !IsName(name) then Skipped
    // without a match the offset stays 0, and the slices start at the next byte
    else if close.None? && !CharEnds(afterOpen) then Crashed
    else
      var offset := if close.Some? then close.value else 0;
      if offset >= |afterOpen| then Crashed
      else Parsed(Signature(name, ParamList(afterOpen[..offset]), ReturnType(afterOpen[offset + 1..])))
  }

  /** The text has a first character, and it takes one byte, so that the text can be cut after it. */
  predicate CharEnds(s: string) {
    s != [] && s[0] < 128 as char
  }

  method ParseFnSignature(sig: string) returns (r: Outcome)
    ensures r == FnSignature(sig)
  {
    hide Trim, Scan, ReadSegments, MatchClose, ParamList, ReturnType;
    var open := Find(sig, "(");
    if open.None? || open.value >= |sig| { return Skipped; }
    var name := FnName(sig[..open.value]);
    if !IsName(name) { return Skipped; }
    var afterOpen := sig[open.value + 1..];
    var close := ScanClose(afterOpen);
    MatchIsInside(afterOpen, 1);
    if close == 0 && !CharEnds(afterOpen) { return Crashed; }
    var params := ParseParamList(afterOpen[..close]);
    r := Parsed(Signature(name, params, ReturnType(afterOpen[close + 1..])));
  }

  method ScanClose(afterOpen: string) returns (offset: nat)
    ensures offset == if MatchClose(afterOpen, 1).Some? then MatchClose(afterOpen, 1).value else 0
  {
    offset := 0;
    var depth: nat := 1;
    assert afterOpen[0..] == afterOpen;
    for i := 0 to |afterOpen|
      invariant depth > 0
      invariant MatchClose(afterOpen, 1) == Shift(MatchClose(afterOpen[i..], depth), i)
    {
      assert afterOpen[i..][0] == afterOpen[i] && afterOpen[i..][1..] == afterOpen[i + 1..];
      if afterOpen[i] == '(' {
        depth := depth + 1;
      } else if afterOpen[i] == ')' {
        depth := depth - 1;
        if depth == 0 { return i; }
      }
    }
    assert afterOpen[|afterOpen|..] == "";
  }

  function Count(s: string, c: char): nat {
    if s == [] then 0 else (if s[0] == c then 1 else 0) + Count(s[1..], c)
  }

  /** At no point of `s` have `depth` more parentheses been closed than opened. */
  ghost predicate Unclosed(s: string, depth: nat) {
    forall i | 0 <= i <= |s| :: Count(s[..i], ')') < Count(s[..i], '(') + depth
  }

  lemma {:induction false} UnclosedIff(s: string, depth: nat)
    requires depth > 0
    ensures MatchClose(s, depth).None? <==> Unclosed(s, depth)
    decreases |s|
  {
    if s == [] {
      assert s[..0] == [];
    } else if s[0] == ')' && depth == 1 {
      assert s[..1] == [')'] && [')'][1..] == [];
      assert !(Count(s[..1], ')') < Count(s[..1], '(') + depth);
    } else {
      var rest := s[1..];
      var depth' := if s[0] == '(' then depth + 1 else if s[0] == ')' then depth - 1 else depth;
      UnclosedIff(rest, depth');
      forall i | 0 <= i <= |rest|
        ensures Count(s[..i + 1], ')') < Count(s[..i + 1], '(') + depth <==> Count(rest[..i], ')') < Count(rest[..i], '(') + depth'
      {
        assert s[..i + 1][0] == s[0] && s[..i + 1][1..] == rest[..i];
      }
      UnclosedStep(s, rest, depth, depth');
    }
  }

  lemma UnclosedStep(s: string, rest: string, depth: nat, depth': nat)
    requires s != [] && rest == s[1..] && depth > 0
    requires forall i | 0 <= i <= |rest| ::
      Count(s[..i + 1], ')') < Count(s[..i + 1], '(') + depth <==> Count(rest[..i], ')') < Count(rest[..i], '(') + depth'
    ensures Unclosed(s, depth) <==> Unclosed(rest, depth')
  {
    hide Count;
    if Unclosed(rest, depth') {
      forall i | 0 <= i <= |s| ensures Count(s[..i], ')') < Count(s[..i], '(') + depth {
        if i == 0 { NoCount(s[..0]); } else { assert Count(rest[..i - 1], ')') < Count(rest[..i - 1], '(') + depth'; }
      }
    }
    if Unclosed(s, depth) {
      forall i | 0 <= i <= |rest| ensures Count(rest[..i], ')') < Count(rest[..i], '(') + depth' {
        assert Count(s[..i + 1], ')') < Count(s[..i + 1], '(') + depth;
      }
    }
  }

  lemma NoCount(s: string)
    requires s == []
    ensures Count(s, '(') == Count(s, ')') == 0
  {
  }

  /**
   * The parser crashes exactly on a well-named signature whose first open parenthesis is
   * never closed and is followed by nothing or by a character of several bytes.
   */
  lemma CrashesIff(sig: string)
    ensures FnSignature(sig) == Crashed <==>
      exists before, after :: sig == before + "(" + after && '(' !in before && IsName(FnName(before))
        && Unclosed(after, 1) && (after == "" || after[0] as int >= 128)
  {
    hide FnName, IsName, MatchClose, Find;
    if FnSignature(sig) == Crashed {
      var open := Find(sig, "(").value;
      var before, after := sig[..open], sig[open + 1..];
      MatchIsInside(after, 1);
      UnclosedIff(after, 1);
      FindSplits(sig, '(');
      assert sig == before + "(" + after;
    }
    forall before, after | sig == before + "(" + after && '(' !in before && IsName(FnName(before))
      && Unclosed(after, 1) && (after == "" || after[0] as int >= 128)
      ensures FnSignature(sig) == Crashed
    {
      FindFirst(before, "(", after);
      UnclosedIff(after, 1);
      assert sig[..|before|] == before && sig[|before| + 1..] == after;
    }
  }

  /** It gives nothing exactly on a text without an open parenthesis, or with no name in front of the first one. */
  lemma SkippedIff(sig: string)
    ensures FnSignature(sig) == Skipped <==>
      '(' !in sig || exists before, after :: sig == before + "(" + after && '(' !in before && !IsName(FnName(before))
  {
    hide FnName, IsName, MatchClose, Find;
    if '(' !in sig {
      NotFound(sig, '(');
    } else {
      var open := OpenOf(sig);
      assert sig == sig[..open] + "(" + sig[open + 1..];
      FindFirst(sig[..open], "(", sig[open + 1..]);
      forall before, after | sig == before + "(" + after && '(' !in before ensures before == sig[..open] {
        FindFirst(before, "(", after);
      }
    }
  }

  lemma {:induction false} OpenOf(sig: string) returns (open: nat)
    requires '(' in sig
    ensures open < |sig| && sig[open] == '(' && '(' !in sig[..open]
  {
    if sig[0] == '(' {
      open := 0;
    } else {
      open := OpenOf(sig[1..]);
      open := open + 1;
      assert sig[..open] == [sig[0]] + sig[1..][..open - 1];
    }
  }

  /** A list that is never closed has no parameters; what follows its first character is taken for the return type. */
  lemma UnclosedListIsEmpty(before: string, after: string)
    requires '(' !in before && IsName(FnName(before)) && Unclosed(after, 1) && after != "" && after[0] as int < 128
    ensures FnSignature(before + "(" + after) == Parsed(Signature(FnName(before), [], ReturnType(after[1..])))
  {
    hide FnName, IsName, MatchClose, Find, ReturnType, ParamList;
    var sig := before + "(" + after;
    FindFirst(before, "(", after);
    UnclosedIff(after, 1);
    assert sig[..|before|] == before && sig[|before| + 1..] == after;
    NoColonNoParameters(after[..0]);
  }

  lemma {:induction false} MatchIsInside(s: string, depth: nat)
    ensures MatchClose(s, depth).Some? ==> MatchClose(s, depth).value < |s| && s[MatchClose(s, depth).value] == ')'
  {
    if s != [] && !(s[0] == ')' && depth == 1) {
      MatchIsInside(s[1..], if s[0] == '(' then depth + 1 else if s[0] == ')' && depth > 0 then depth - 1 else depth);
    }
  }

  lemma {:induction false} FindSplits(s: string, c: char)
    requires Find(s, [c]).Some?
    ensures var i := Find(s, [c]).value; i < |s| && s[i] == c && c !in s[..i]
  {
    if [c] <= s {
      assert s[..1] == [c];
    } else {
      FindSplits(s[1..], c);
      var i := Find(s[1..], [c]).value;
      assert s[..i + 1] == [s[0]] + s[1..][..i];
      assert s[0] == c ==> [c] <= s;
    }
  }

  // ----- Round trip of signatures -----

  lemma {:induction false} CloseSkips(s: string, rest: string, depth: nat)
    requires IsParenFree(s)
    ensures MatchClose(s + rest, depth) == Shift(MatchClose(rest, depth), |s|)
    decreases |s|
  {
    if s == [] {
      assert s + rest == rest;
    } else {
      assert s[0] in s && (s + rest)[0] == s[0] && (s + rest)[1..] == s[1..] + rest;
      assert forall c | c in s[1..] :: c in s;
      CloseSkips(s[1..], rest, depth);
    }
  }

  lemma CloseOne(c: char, rest: string, depth: nat)
    ensures c == '(' ==> MatchClose([c] + rest, depth) == Shift(MatchClose(rest, depth + 1), 1)
    ensures c == ')' && depth > 1 ==> MatchClose([c] + rest, depth) == Shift(MatchClose(rest, depth - 1), 1)
    ensures c == ')' && depth == 1 ==> MatchClose([c] + rest, depth) == Some(0)
  {
    assert ([c] + rest)[0] == c && ([c] + rest)[1..] == rest;
  }

  lemma PlainIsParenFree(s: string)
    requires IsPlain(s)
    ensures IsParenFree(s)
  {
    forall c | c in s ensures IsPlainChar(c) { var i :| 0 <= i < |s| && s[i] == c; }
  }

  /** A balanced type never closes an enclosing parenthesis. */
  lemma {:induction false} CloseSkipsType(t: Type, rest: string, depth: nat)
    requires WellFormed(t) && depth > 0
    ensures MatchClose(Print(t) + rest, depth) == Shift(MatchClose(rest, depth), |Print(t)|)
    decreases t
  {
    hide MatchClose;
    match t
    case Path(name) =>
      PlainIsParenFree(name);
      CloseSkips(name, rest, depth);
    case Generic(name, args) =>
      PlainIsParenFree(name);
      var tail := ">" + rest;
      assert Print(t) + rest == (name + "<") + (PrintAll(args) + tail);
      CloseSkips(name + "<", PrintAll(args) + tail, depth);
      CloseSkipsTypes(args, tail, depth);
      CloseSkips(">", rest, depth);
    case Tuple(args) =>
      var tail := ")" + rest;
      assert Print(t) + rest == "(" + (PrintAll(args) + tail);
      CloseOne('(', PrintAll(args) + tail, depth);
      CloseSkipsTypes(args, tail, depth + 1);
      CloseOne(')', rest, depth + 1);
    case Ref(mutable, inner) =>
      var prefix := if mutable then "&mut " else "&";
      assert Print(t) + rest == prefix + (Print(inner) + rest);
      CloseSkips(prefix, Print(inner) + rest, depth);
      CloseSkipsType(inner, rest, depth);
  }

  lemma {:induction false} CloseSkipsTypes(ts: seq<Type>, rest: string, depth: nat)
    requires (forall a | a in ts :: WellFormed(a)) && depth > 0
    ensures MatchClose(PrintAll(ts) + rest, depth) == Shift(MatchClose(rest, depth), |PrintAll(ts)|)
    decreases ts
  {
    hide MatchClose;
    if ts == [] {
      assert PrintAll(ts) + rest == rest;
    } else if |ts| == 1 {
      CloseSkipsType(ts[0], rest, depth);
    } else {
      var others := PrintAll(ts[1..]);
      assert PrintAll(ts) + rest == Print(ts[0]) + (", " + (others + rest));
      CloseSkipsType(ts[0], ", " + (others + rest), depth);
      CloseSkips(", ", others + rest, depth);
      CloseSkipsTypes(ts[1..], rest, depth);
    }
  }

  lemma CloseSkipsParam(p: Param, rest: string, depth: nat)
    requires WellFormedParam(p) && depth > 0
    ensures MatchClose(PrintParam(p) + rest, depth) == Shift(MatchClose(rest, depth), |PrintParam(p)|)
  {
    hide MatchClose;
    match p
    case Receiver(text) => CloseSkips(text, rest, depth);
    case Named(name, ty) =>
      NameIsParenFree(name);
      assert PrintParam(p) + rest == (name + ": ") + (Print(ty) + rest);
      CloseSkips(name + ": ", Print(ty) + rest, depth);
      CloseSkipsType(ty, rest, depth);
  }

  lemma {:induction false} CloseSkipsParams(ps: seq<Param>, rest: string, depth: nat)
    requires WellFormedParams(ps) && depth > 0
    ensures MatchClose(PrintParams(ps) + rest, depth) == Shift(MatchClose(rest, depth), |PrintParams(ps)|)
  {
    hide MatchClose, PrintParam, Shift;
    if ps == [] {
      assert PrintParams(ps) + rest == rest;
      ShiftTwice(MatchClose(rest, depth), 0, 0);
    } else {
      assert ps[0] in ps && forall q | q in ps[1..] :: q in ps;
      if |ps| == 1 {
        CloseSkipsParam(ps[0], rest, depth);
      } else {
        var others := PrintParams(ps[1..]);
        assert PrintParams(ps) + rest == PrintParam(ps[0]) + (", " + (others + rest));
        CloseSkipsParam(ps[0], ", " + (others + rest), depth);
        CloseSkips(", ", others + rest, depth);
        CloseSkipsParams(ps[1..], rest, depth);
        var inner := MatchClose(rest, depth);
        ShiftTwice(inner, |others|, 2);
        ShiftTwice(inner, |others| + 2, |PrintParam(ps[0])|);
      }
    }
  }

  lemma ShiftTwice(i: Option<nat>, m: nat, n: nat)
    ensures Shift(Shift(i, m), n) == Shift(i, m + n) && Shift(i, 0) == i
  {
  }

  /** No generics, or `<...>` without parentheses. */
  predicate IsGenerics(g: string) {
    g == "" || (g[0] == '<' && g[|g| - 1] == '>' && '(' !in g)
  }

  function PrintSignature(name: string, generics: string, ps: seq<Param>, ret: Option<Type>): string {
    name + generics + "(" + PrintParams(ps) + ")" + (if ret.Some? then " -> " + Print(ret.value) + " {" else " {")
  }

  /** The name is what stands before the first `<`, with blanks anywhere around it. */
  lemma NameRoundTrip(before: string, name: string, gap: string, generics: string, after: string)
    requires IsName(name) && Blank(before) && Blank(gap) && Blank(after)
    requires generics == "" || (generics[0] == '<' && !IsSpace(generics[|generics| - 1]))
    ensures FnName(before + name + gap + generics + after) == name
  {
    hide Find, Trim, Blank;
    NameIsTight(name);
    BlankEmpty();
    if generics == "" {
      BlankSum(gap, after);
      assert before + name + gap + generics + after == before + name + (gap + after);
      TrimsBlanks(before, name, gap + after);
      NameIsParenFree(name);
      NotFound(name, '<');
    } else {
      var raw := name + gap + generics;
      assert before + name + gap + generics + after == before + raw + after;
      assert raw[0] == name[0] && raw[|raw| - 1] == generics[|generics| - 1];
      TrimsBlanks(before, raw, after);
      HasNoAngle(name, gap);
      assert raw == (name + gap) + "<" + generics[1..];
      FindFirst(name + gap, "<", generics[1..]);
      assert raw[..|name + gap|] == "" + name + gap;
      TrimsBlanks("", name, gap);
    }
  }

  lemma HasNoAngle(name: string, gap: string)
    requires IsName(name) && Blank(gap)
    ensures '<' !in name + gap
  {
    NameIsParenFree(name);
  }

  lemma BlankSum(a: string, b: string)
    requires Blank(a) && Blank(b)
    ensures Blank(a + b)
  {
  }

  lemma {:induction false} TypeHasNoBrace(t: Type)
    requires WellFormed(t)
    ensures '{' !in Print(t)
    decreases t
  {
    match t
    case Path(name) => PlainHasNoBrace(name);
    case Generic(name, args) =>
      PlainHasNoBrace(name);
      TypesHaveNoBrace(args);
    case Tuple(args) => TypesHaveNoBrace(args);
    case Ref(_, inner) => TypeHasNoBrace(inner);
  }

  lemma PlainHasNoBrace(s: string)
    requires IsPlain(s)
    ensures '{' !in s
  {
    forall c | c in s ensures IsPlainChar(c) { var i :| 0 <= i < |s| && s[i] == c; }
  }

  lemma {:induction false} TypesHaveNoBrace(ts: seq<Type>)
    requires forall a | a in ts :: WellFormed(a)
    ensures '{' !in PrintAll(ts)
    decreases ts
  {
    if ts != [] {
      TypeHasNoBrace(ts[0]);
      if |ts| > 1 { TypesHaveNoBrace(ts[1..]); }
    }
  }

  /** The return type is read back, whatever blanks are around it and whatever the body is, exactly when its text does not contain `where`. */
  lemma ReturnRoundTripIff(before: string, gap: string, t: Type, after: string, body: string)
    requires WellFormed(t) && Blank(before) && Blank(gap) && Blank(after)
    ensures ReturnType(before + "->" + gap + Print(t) + after + "{" + body) == Print(t)
       <==> Find(Print(t) + after, "where").None?
  {
    hide Find, Trim, Print, Blank, ReturnType;
    PrintIsTight(t);
    TypeHasNoBrace(t);
    ReturnText(before, gap, Print(t), after, body);
    CutAtWhere(Print(t), after);
  }

  lemma BlankHas(s: string)
    requires Blank(s)
    ensures '{' !in s && '-' !in s && 'w' !in s
  {
  }

  lemma ReturnText(before: string, gap: string, r: string, after: string, body: string)
    requires Tight(r) && '{' !in r && Blank(before) && Blank(gap) && Blank(after)
    ensures ReturnType(before + "->" + gap + r + after + "{" + body) == Trim(Before(r + after, "where"))
  {
    hide Find, Trim, Blank;
    BlankHas(before);
    BlankHas(after);
    var text := before + "->" + gap + r + after + "{" + body;
    var rest := r + after + "{" + body;
    assert text == before + "->" + (gap + rest);
    FindFirst(before, "->", gap + rest);
    assert text[|before| + 2..] == gap + rest;
    var body' := TrimKeepsBrace(gap, r + after, body);
    assert gap + (r + after) + "{" + body == gap + rest;
    FindFirst(r + after, "{", body');
    assert (r + after + "{" + body')[..|r + after|] == r + after;
  }

  lemma TailHas(a: string, b: string)
    ensures forall k :: |a| <= k < |a + b| ==> (a + b)[k] in b
  {
    forall k | |a| <= k < |a + b| ensures (a + b)[k] in b { assert (a + b)[k] == b[k - |a|]; }
  }

  /** Trimming cuts the text in front of an open brace at its start only. */
  lemma TrimKeepsBrace(gap: string, r: string, body: string) returns (body': string)
    requires Blank(gap) && r != [] && !IsSpace(r[0])
    ensures Trim(gap + r + "{" + body) == r + "{" + body'
  {
    hide TrimStart, TrimEnd, Blank;
    var w := r + "{" + body;
    assert gap + r + "{" + body == gap + w && w[0] == r[0];
    TrimStartSkips(gap, w);
    var cut := TrimEndCuts(w);
    BlankHas(cut);
    var n := |TrimEnd(w)|;
    TailHas(TrimEnd(w), cut);
    assert w[|r|] == '{' && n > |r|;
    assert TrimEnd(w) == w[..n];
    body' := w[|r| + 1..n];
    assert w[..n] == r + "{" + body';
  }

  lemma CutAtWhere(r: string, after: string)
    requires Tight(r) && Blank(after)
    ensures Trim(Before(r + after, "where")) == r <==> Find(r + after, "where").None?
  {
    hide Find, TrimStart, TrimEnd, Blank;
    BlankEmpty();
    TrimsBlanks("", r, after);
    assert "" + r + after == r + after;
    BlankHas(after);
    FindWhere(r + after, "where");
    var k := Find(r + after, "where");
    if k.Some? {
      FindIs(r + after, "where");
      assert (r + after)[k.value] == 'w';
      TailHas(r, after);
      assert k.value < |r|;
      TrimShrinks((r + after)[..k.value]);
      TrimShrinks(TrimStart((r + after)[..k.value]));
      assert |Trim((r + after)[..k.value])| <= k.value < |r|;
    }
  }

  lemma {:induction false} FindIs(s: string, part: string)
    requires Find(s, part).Some? && part != []
    ensures Find(s, part).value < |s| && s[Find(s, part).value] == part[0]
  {
    if !(part <= s) { FindIs(s[1..], part); }
  }

  /** Rendering a signature and parsing it gives its name, named parameters and return type back. */
  lemma SignatureRoundTrip(name: string, generics: string, ps: seq<Param>, ret: Option<Type>)
    requires IsName(name) && IsGenerics(generics) && WellFormedParams(ps)
    requires ret.Some? ==> WellFormed(ret.value) && Find(Print(ret.value) + " ", "where").None?
    ensures FnSignature(PrintSignature(name, generics, ps, ret))
         == Parsed(Signature(name, Expected(ps), if ret.Some? then Print(ret.value) else "()"))
  {
    hide Find, MatchClose, ReturnType, ParamList, FnName, FnSignature, Print, PrintParams, Expected, WellFormed, WellFormedParams, IsName, Blank;
    SingleBlanks();
    var inside := PrintParams(ps);
    var tail := if ret.Some? then " -> " + Print(ret.value) + " {" else " {";
    assert "" + name + "" + generics + "" == name + generics;
    NameRoundTrip("", name, "", generics, "");
    NameHasNoParen(name, generics);
    ParamListRoundTrip(ps);
    ParamsClose(ps, tail);
    if ret.Some? {
      ReturnRoundTripIff(" ", " ", ret.value, " ", "");
      assert " " + "->" + " " + Print(ret.value) + " " + "{" + "" == tail;
    } else {
      NoArrow();
    }
    SignatureParts(name + generics, inside, tail);
    assert PrintSignature(name, generics, ps, ret) == name + generics + "(" + (inside + (")" + tail));
  }

  lemma SingleBlanks()
    ensures Blank("") && Blank(" ")
  {
  }

  lemma NameHasNoParen(name: string, generics: string)
    requires IsName(name) && IsGenerics(generics)
    ensures '(' !in name + generics
  {
    NameIsParenFree(name);
  }

  /** The parenthesis after the parameters is the one that closes the list. */
  lemma ParamsClose(ps: seq<Param>, tail: string)
    requires WellFormedParams(ps)
    ensures MatchClose(PrintParams(ps) + (")" + tail), 1) == Some(|PrintParams(ps)|)
  {
    hide MatchClose, PrintParams, WellFormedParams;
    CloseSkipsParams(ps, ")" + tail, 1);
    CloseOne(')', tail, 1);
  }

  /** A text cut at its first open parenthesis and the one that closes it. */
  lemma SignatureParts(head: string, inside: string, tail: string)
    requires '(' !in head && IsName(FnName(head)) && MatchClose(inside + (")" + tail), 1) == Some(|inside|)
    ensures FnSignature(head + "(" + (inside + (")" + tail)))
         == Parsed(Signature(FnName(head), ParamList(inside), ReturnType(tail)))
  {
    hide Find, MatchClose, ReturnType, ParamList, FnName, IsName;
    var afterOpen := inside + (")" + tail);
    var sig := head + "(" + afterOpen;
    FindFirst(head, "(", afterOpen);
    assert sig[..|head|] == head && sig[|head| + 1..] == afterOpen;
    assert afterOpen[..|inside|] == inside && afterOpen[|inside| + 1..] == tail;
  }

  /** The parentheses of a closure bound, as in `f<F: Fn(i64) -> i64>(g: F)`, are taken for the parameter list, which is lost. */
  lemma ClosureBoundIsRead(name: string, bound: string, args: string, tail: string)
    requires IsName(name) && bound != "" && bound[0] == '<' && !IsSpace(bound[|bound| - 1]) && '(' !in bound
    requires IsParenFree(args) && ':' !in args
    ensures FnSignature(name + bound + "(" + (args + (")" + tail))) == Parsed(Signature(name, [], ReturnType(tail)))
  {
    hide MatchClose, ReturnType, ParamList, FnName, FnSignature, IsName;
    SingleBlanks();
    assert "" + name + "" + bound + "" == name + bound;
    NameRoundTrip("", name, "", bound, "");
    NameIsParenFree(name);
    CloseSkips(args, ")" + tail, 1);
    CloseOne(')', tail, 1);
    NoColonNoParameters(args);
    SignatureParts(name + bound, args, tail);
  }

  lemma NoArrow()
    ensures ReturnType(" {") == "()"
  {
    assert " {"[1..] == "{" && "{"[1..] == "";
    var s, part := " {", "->";
    assert s[0] != part[0];
    assert !(part <= s);
    assert Find("", "->") == None;
    assert Find("{", "->") == None;
    assert Find(" {", "->") == None;
  }
}
