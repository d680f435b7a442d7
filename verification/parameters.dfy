/** The scanner for Rust parameter lists: where a list is split, and what its segments declare. */
module Parameters {
  import opened Ast

  // ----- Strings -----

  predicate IsSpace(c: char) { c == ' ' || '\t' <= c <= '\r' }

  function TrimStart(s: string): string {
    if s != [] && IsSpace(s[0]) then TrimStart(s[1..]) else s
  }

  function TrimEnd(s: string): string {
    if s != [] && IsSpace(s[|s| - 1]) then TrimEnd(s[..|s| - 1]) else s
  }

  function Trim(s: string): string { TrimEnd(TrimStart(s)) }

  /** First position of `part`. */
  function Find(s: string, part: string): Option<nat> {
    if part <= s then Some(0)
    else if s == [] then None
    else
      var i := Find(s[1..], part);
      if i.Some? then Some(i.value + 1) else None
  }

  /** The text before the first `part`, or all of it. */
  function Before(s: string, part: string): string
  {
    var i := Find(s, part);
    if i.Some? && i.value <= |s| then s[..i.value] else s
  }

  // ----- Parameter lists -----

  /** Splits at commas outside `<>` and `()`; `cur` is the segment being read. */
  function Scan(s: string, cur: string, depth: nat, parens: nat): seq<string> {
    if s == [] then [cur] else
    var c, rest := s[0], s[1..];
    if c == '<' then Scan(rest, cur + [c], depth + 1, parens)
    else if c == '>' && depth > 0 then Scan(rest, cur + [c], depth - 1, parens)
    else if c == '(' then Scan(rest, cur + [c], depth, parens + 1)
    else if c == ')' && parens > 0 then Scan(rest, cur + [c], depth, parens - 1)
    else if c == ',' && depth == 0 && parens == 0 then [cur] + Scan(rest, "", depth, parens)
    else Scan(rest, cur + [c], depth, parens)
  }

  predicate IsReceiver(seg: string) { seg == "self" || seg == "&self" || seg == "&mut self" }

  /** The name and type of one segment; receivers and segments without a name or colon give nothing. */
  function ReadSegment(segment: string): seq<(string, string)> {
    var seg := Trim(segment);
    var colon := Find(seg, ":");
    if IsReceiver(seg) || colon.None? || colon.value >= |seg| then []
    else
      var name, ty := Trim(seg[..colon.value]), Trim(seg[colon.value + 1..]);
      if name == [] then [] else [(name, ty)]
  }

  function ReadSegments(segments: seq<string>): seq<(string, string)> {
    if segments == [] then [] else ReadSegment(segments[0]) + ReadSegments(segments[1..])
  }

  function ParamList(params: string): seq<(string, string)> {
    if Trim(params) == [] then [] else ReadSegments(Scan(Trim(params), "", 0, 0))
  }

  method ParseParamList(params: string) returns (result: seq<(string, string)>)
    ensures result == ParamList(params)
  {
    var params' := Trim(params);
    if params' == [] { return []; }
    hide ReadSegment, Trim, Scan;
    var segments := SplitParams(params');
    assert segments[0..] == segments;
    result := [];
    for i := 0 to |segments|
      invariant result + ReadSegments(segments[i..]) == ReadSegments(segments)
    {
      assert segments[i..][0] == segments[i] && segments[i..][1..] == segments[i + 1..];
      var read := ReadOne(segments[i]);
      assert result + read + ReadSegments(segments[i + 1..]) == result + (read + ReadSegments(segments[i + 1..]));
      result := result + read;
    }
    assert segments[|segments|..] == [];
  }

  method ReadOne(segment: string) returns (read: seq<(string, string)>)
    ensures read == ReadSegment(segment)
  {
    read := [];
    var seg := Trim(segment);
    if !IsReceiver(seg) {
      var colon := Find(seg, ":");
      if colon.Some? && colon.value < |seg| {
        var name := Trim(seg[..colon.value]);
        var ty := Trim(seg[colon.value + 1..]);
        if name != [] { read := [(name, ty)]; }
      }
    }
  }

  method SplitParams(params: string) returns (segments: seq<string>)
    ensures segments == Scan(params, "", 0, 0)
  {
    hide Scan;
    segments := [];
    var depth: nat, parens: nat, start := 0, 0, 0;
    assert params[0..] == params && params[0..0] == "";
    for i := 0 to |params|
      invariant 0 <= start <= i
      invariant segments + Scan(params[i..], params[start..i], depth, parens) == Scan(params, "", 0, 0)
    {
      var c := params[i];
      ScanStep(params, start, i, depth, parens);
      if c == '<' {
        depth := depth + 1;
      } else if c == '>' && depth > 0 {
        depth := depth - 1;
      } else if c == '(' {
        parens := parens + 1;
      } else if c == ')' && parens > 0 {
        parens := parens - 1;
      } else if c == ',' && depth == 0 && parens == 0 {
        segments := segments + [params[start..i]];
        start := i + 1;
      }
    }
    assert params[|params|..] == "" && params[start..|params|] == params[start..];
    ScanEnd(params[start..]);
    segments := segments + [params[start..]];
  }

  /** One step of `Scan` at position `i` of `s`, where `s[start..i]` has been read. */
  lemma ScanStep(s: string, start: nat, i: nat, depth: nat, parens: nat)
    requires start <= i < |s|
    ensures var c, cur, rest := s[i], s[start..i + 1], s[i + 1..];
      Scan(s[i..], s[start..i], depth, parens) ==
      if c == '<' then Scan(rest, cur, depth + 1, parens)
      else if c == '>' && depth > 0 then Scan(rest, cur, depth - 1, parens)
      else if c == '(' then Scan(rest, cur, depth, parens + 1)
      else if c == ')' && parens > 0 then Scan(rest, cur, depth, parens - 1)
      else if c == ',' && depth == 0 && parens == 0 then [s[start..i]] + Scan(rest, s[i + 1..i + 1], depth, parens)
      else Scan(rest, cur, depth, parens)
  {
    assert s[i..][0] == s[i] && s[i..][1..] == s[i + 1..];
    assert s[start..i] + [s[i]] == s[start..i + 1] && s[i + 1..i + 1] == "";
  }

  // ----- Types, as they are written -----

  datatype Type =
    | Path(name: string)
    | Generic(name: string, args: seq<Type>)
    | Tuple(args: seq<Type>)
    | Ref(mutable: bool, inner: Type)

  predicate IsPlainChar(c: char) {
    c != '<' && c != '>' && c != '(' && c != ')' && c != ',' && c != '{' && !IsSpace(c)
  }

  predicate IsPlain(s: string) {
    s != [] && forall i :: 0 <= i < |s| ==> IsPlainChar(s[i])
  }

  predicate WellFormed(t: Type)
    decreases t
  {
    match t
    case Path(name) => IsPlain(name)
    case Generic(name, args) => IsPlain(name) && forall a | a in args :: WellFormed(a)
    case Tuple(args) => forall a | a in args :: WellFormed(a)
    case Ref(_, inner) => WellFormed(inner)
  }

  function Print(t: Type): string
    decreases t
  {
    match t
    case Path(name) => name
    case Generic(name, args) => name + "<" + PrintAll(args) + ">"
    case Tuple(args) => "(" + PrintAll(args) + ")"
    case Ref(mutable, inner) => (if mutable then "&mut " else "&") + Print(inner)
  }

  /** The types joined by `, `. */
  function PrintAll(ts: seq<Type>): string
    decreases ts
  {
    if ts == [] then ""
    else if |ts| == 1 then Print(ts[0])
    else Print(ts[0]) + ", " + PrintAll(ts[1..])
  }

  // ----- Scanning a balanced type restores both counters -----

  predicate IsQuiet(c: char) { c != '<' && c != '>' && c != '(' && c != ')' && c != ',' }

  lemma {:induction false} ScanQuiet(s: string, rest: string, cur: string, depth: nat, parens: nat)
    requires forall i :: 0 <= i < |s| ==> IsQuiet(s[i])
    ensures Scan(s + rest, cur, depth, parens) == Scan(rest, cur + s, depth, parens)
    decreases |s|
  {
    if s == [] {
      assert s + rest == rest && cur + s == cur;
    } else {
      assert (s + rest)[0] == s[0] && (s + rest)[1..] == s[1..] + rest;
      ScanQuiet(s[1..], rest, cur + [s[0]], depth, parens);
      assert cur + [s[0]] + s[1..] == cur + s;
    }
  }

  lemma ScanOne(c: char, rest: string, cur: string, depth: nat, parens: nat)
    ensures c == '<' ==> Scan([c] + rest, cur, depth, parens) == Scan(rest, cur + [c], depth + 1, parens)
    ensures c == '>' && depth > 0 ==> Scan([c] + rest, cur, depth, parens) == Scan(rest, cur + [c], depth - 1, parens)
    ensures c == '(' ==> Scan([c] + rest, cur, depth, parens) == Scan(rest, cur + [c], depth, parens + 1)
    ensures c == ')' && parens > 0 ==> Scan([c] + rest, cur, depth, parens) == Scan(rest, cur + [c], depth, parens - 1)
    ensures c == ',' && depth + parens > 0 ==> Scan([c] + rest, cur, depth, parens) == Scan(rest, cur + [c], depth, parens)
    ensures c == ',' && depth + parens == 0 ==> Scan([c] + rest, cur, depth, parens) == [cur] + Scan(rest, "", 0, 0)
  {
    assert ([c] + rest)[0] == c && ([c] + rest)[1..] == rest;
  }

  lemma {:induction false} ScanType(t: Type, rest: string, cur: string, depth: nat, parens: nat)
    requires WellFormed(t)
    ensures Scan(Print(t) + rest, cur, depth, parens) == Scan(rest, cur + Print(t), depth, parens)
    decreases t
  {
    match t
    case Path(name) => ScanQuiet(name, rest, cur, depth, parens);
    case Generic(name, args) => ScanGeneric(name, args, rest, cur, depth, parens);
    case Tuple(args) => ScanTuple(args, rest, cur, depth, parens);
    case Ref(mutable, inner) =>
      var prefix := if mutable then "&mut " else "&";
      assert Print(t) + rest == prefix + (Print(inner) + rest);
      ScanQuiet(prefix, Print(inner) + rest, cur, depth, parens);
      ScanType(inner, rest, cur + prefix, depth, parens);
      assert cur + prefix + Print(inner) == cur + Print(t);
  }

  lemma {:induction false} ScanGeneric(name: string, args: seq<Type>, rest: string, cur: string, depth: nat, parens: nat)
    requires WellFormed(Generic(name, args))
    ensures Scan(Print(Generic(name, args)) + rest, cur, depth, parens) == Scan(rest, cur + Print(Generic(name, args)), depth, parens)
    decreases Generic(name, args), 0
  {
    hide Scan;
    var inside := PrintAll(args);
    var tail := inside + (">" + rest);
    assert Print(Generic(name, args)) + rest == name + ("<" + tail);
    ScanQuiet(name, "<" + tail, cur, depth, parens);
    ScanOne('<', tail, cur + name, depth, parens);
    ScanTypes(args, ">" + rest, cur + name + "<", depth + 1, parens);
    ScanOne('>', rest, cur + name + "<" + inside, depth + 1, parens);
    assert cur + name + "<" + inside + ">" == cur + Print(Generic(name, args));
  }

  lemma {:induction false} ScanTuple(args: seq<Type>, rest: string, cur: string, depth: nat, parens: nat)
    requires WellFormed(Tuple(args))
    ensures Scan(Print(Tuple(args)) + rest, cur, depth, parens) == Scan(rest, cur + Print(Tuple(args)), depth, parens)
    decreases Tuple(args), 0
  {
    hide Scan;
    var inside := PrintAll(args);
    var tail := inside + (")" + rest);
    assert Print(Tuple(args)) + rest == "(" + tail;
    ScanOne('(', tail, cur, depth, parens);
    ScanTypes(args, ")" + rest, cur + "(", depth, parens + 1);
    ScanOne(')', rest, cur + "(" + inside, depth, parens + 1);
    assert cur + "(" + inside + ")" == cur + Print(Tuple(args));
  }

  lemma {:induction false} ScanTypes(ts: seq<Type>, rest: string, cur: string, depth: nat, parens: nat)
    requires (forall a | a in ts :: WellFormed(a)) && depth + parens > 0
    ensures Scan(PrintAll(ts) + rest, cur, depth, parens) == Scan(rest, cur + PrintAll(ts), depth, parens)
    decreases ts
  {
    if ts == [] {
      assert PrintAll(ts) + rest == rest && cur + PrintAll(ts) == cur;
    } else if |ts| == 1 {
      ScanType(ts[0], rest, cur, depth, parens);
    } else {
      var first, others := Print(ts[0]), PrintAll(ts[1..]);
      var tail := " " + (others + rest);
      assert PrintAll(ts) + rest == first + ("," + tail);
      ScanType(ts[0], "," + tail, cur, depth, parens);
      ScanOne(',', tail, cur + first, depth, parens);
      ScanQuiet(" ", others + rest, cur + first + ",", depth, parens);
      ScanTypes(ts[1..], rest, cur + first + "," + " ", depth, parens);
      assert cur + first + "," + " " + others == cur + PrintAll(ts);
    }
  }

  // ----- Finding and trimming -----

  lemma {:induction false} FindFirst(a: string, part: string, b: string)
    requires part != [] && part[0] !in a
    ensures Find(a + part + b, part) == Some(|a|)
    decreases |a|
  {
    var s := a + part + b;
    if a == [] {
      assert s == part + b && s[..|part|] == part;
    } else {
      assert s[0] == a[0];
      assert s[1..] == a[1..] + part + b;
      FindFirst(a[1..], part, b);
      assert a[0] in a && s[0] != part[0];
    }
  }

  lemma {:induction false} NotFound(s: string, c: char)
    requires c !in s
    ensures Find(s, [c]) == None
  {
    if s != [] {
      assert s[0] in s && forall d | d in s[1..] :: d in s;
      NotFound(s[1..], c);
    }
  }

  lemma {:induction false} FindWhere(s: string, part: string)
    ensures Find(s, part).Some? ==> Find(s, part).value + |part| <= |s|
  {
    if !(part <= s) && s != [] { FindWhere(s[1..], part); }
  }

  predicate Tight(s: string) { s != [] && !IsSpace(s[0]) && !IsSpace(s[|s| - 1]) }

  /** Spaces, tabs, line feeds and the other ASCII white space. */
  predicate Blank(s: string) {
    forall c | c in s :: c == ' ' || c == '\t' || c == '\n' || c == 11 as char || c == 12 as char || c == '\r'
  }

  lemma BlankMore(c: char, s: string)
    requires IsSpace(c) && Blank(s)
    ensures Blank([c] + s) && Blank(s + [c])
  {
  }

  /** What trimming leaves starts and ends with no space, and what it removes is blank. */
  lemma {:induction false} TrimStartCuts(s: string) returns (a: string)
    ensures s == a + TrimStart(s) && Blank(a)
    ensures TrimStart(s) != [] ==> !IsSpace(TrimStart(s)[0])
  {
    hide Blank;
    BlankEmpty();
    if s != [] && IsSpace(s[0]) {
      a := TrimStartCuts(s[1..]);
      BlankMore(s[0], a);
      a := [s[0]] + a;
    } else {
      a := "";
    }
  }

  lemma {:induction false} TrimEndCuts(s: string) returns (b: string)
    ensures s == TrimEnd(s) + b && Blank(b)
    ensures TrimEnd(s) != [] ==> !IsSpace(TrimEnd(s)[|TrimEnd(s)| - 1])
    decreases |s|
  {
    hide Blank;
    BlankEmpty();
    if s != [] && IsSpace(s[|s| - 1]) {
      b := TrimEndCuts(s[..|s| - 1]);
      BlankMore(s[|s| - 1], b);
      b := b + [s[|s| - 1]];
    } else {
      b := "";
    }
  }

  lemma TrimCuts(s: string) returns (a: string, b: string)
    ensures s == a + Trim(s) + b && Blank(a) && Blank(b)
    ensures Trim(s) == [] || Tight(Trim(s))
  {
    hide TrimStart, TrimEnd, Blank;
    a := TrimStartCuts(s);
    b := TrimEndCuts(TrimStart(s));
    var t := Trim(s);
    assert TrimStart(s) == t + b;
    if t != [] { assert t[0] == TrimStart(s)[0]; }
  }

  lemma {:induction false} TrimStartSkips(a: string, t: string)
    requires Blank(a) && (t == [] || !IsSpace(t[0]))
    ensures TrimStart(a + t) == t
  {
    if a == [] {
      assert a + t == t;
    } else {
      assert a[0] in a && (a + t)[0] == a[0] && (a + t)[1..] == a[1..] + t;
      assert forall c | c in a[1..] :: c in a;
      TrimStartSkips(a[1..], t);
    }
  }

  lemma {:induction false} TrimEndSkips(t: string, b: string)
    requires Blank(b) && (t == [] || !IsSpace(t[|t| - 1]))
    ensures TrimEnd(t + b) == t
    decreases |b|
  {
    if b == [] {
      assert t + b == t;
    } else {
      var n := |b| - 1;
      assert b[n] in b && (t + b)[|t| + n] == b[n] && (t + b)[..|t| + n] == t + b[..n];
      assert forall c | c in b[..n] :: c in b;
      TrimEndSkips(t, b[..n]);
    }
  }

  /** Trimming removes exactly the blanks around a text. */
  lemma TrimsBlanks(a: string, t: string, b: string)
    requires Blank(a) && Blank(b) && (t == [] || Tight(t))
    ensures Trim(a + t + b) == t
  {
    if t == [] {
      assert a + t + b == (a + b) + [];
      TrimStartSkips(a + b, []);
    } else {
      assert a + t + b == a + (t + b) && (t + b)[0] == t[0];
      TrimStartSkips(a, t + b);
      TrimEndSkips(t, b);
    }
  }

  /** Blanks around any text change nothing once it is trimmed. */
  lemma TrimIgnoresBlanks(a: string, s: string, b: string)
    requires Blank(a) && Blank(b)
    ensures Trim(a + s + b) == Trim(s)
  {
    hide Trim;
    var a', b' := TrimCuts(s);
    assert a + s + b == (a + a') + Trim(s) + (b' + b);
    TrimsBlanks(a + a', Trim(s), b' + b);
  }

  lemma {:induction false} TrimShrinks(s: string)
    ensures |TrimStart(s)| <= |s| && |TrimEnd(s)| <= |s|
    decreases |s|
  {
    if s != [] {
      TrimShrinks(s[1..]);
      TrimShrinks(s[..|s| - 1]);
    }
  }

  // ----- Round trip of parameter lists -----

  datatype Param = Receiver(text: string) | Named(name: string, ty: Type)

  predicate IsNameChar(c: char) { 'a' <= c <= 'z' || 'A' <= c <= 'Z' || '0' <= c <= '9' || c == '_' }

  predicate IsName(s: string) {
    s != [] && forall i :: 0 <= i < |s| ==> IsNameChar(s[i])
  }

  /** The characters of a name: ASCII letters, digits and the underscore. */
  lemma NameCharIff(c: char)
    ensures IsNameChar(c) <==> 'a' <= c <= 'z' || 'A' <= c <= 'Z' || c == '_' || DecimalDigit(c)
  {
  }

  predicate DecimalDigit(c: char) {
    c == '0' || c == '1' || c == '2' || c == '3' || c == '4' || c == '5' || c == '6' || c == '7' || c == '8' || c == '9'
  }

  predicate WellFormedParam(p: Param) {
    match p
    case Receiver(text) => IsReceiver(text)
    case Named(name, ty) => IsName(name) && WellFormed(ty)
  }

  predicate WellFormedParams(ps: seq<Param>) {
    forall p | p in ps :: WellFormedParam(p)
  }

  function PrintParam(p: Param): string {
    match p
    case Receiver(text) => text
    case Named(name, ty) => name + ": " + Print(ty)
  }

  function PrintParams(ps: seq<Param>): string {
    if ps == [] then ""
    else if |ps| == 1 then PrintParam(ps[0])
    else PrintParam(ps[0]) + ", " + PrintParams(ps[1..])
  }

  /** What the list should be read as: the named parameters, receivers dropped. */
  function Expected(ps: seq<Param>): seq<(string, string)> {
    if ps == [] then []
    else (if ps[0].Named? then [(ps[0].name, Print(ps[0].ty))] else []) + Expected(ps[1..])
  }

  lemma {:induction false} PrintIsTight(t: Type)
    requires WellFormed(t)
    ensures Tight(Print(t))
    decreases t
  {
    match t
    case Path(name) => assert IsPlainChar(name[0]) && IsPlainChar(name[|name| - 1]);
    case Generic(name, args) => assert IsPlainChar(name[0]) && Print(t)[0] == name[0];
    case Tuple(_) =>
    case Ref(mutable, inner) =>
      PrintIsTight(inner);
      assert Print(t)[|Print(t)| - 1] == Print(inner)[|Print(inner)| - 1];
  }

  lemma ColonIsNoReceiver(seg: string)
    requires ':' in seg
    ensures !IsReceiver(seg)
  {
    assert ':' !in "self" && ':' !in "&self" && ':' !in "&mut self";
  }

  /**
   * What may stand between two commas: a name and its type or a receiver, with blanks
   * anywhere around them, or a text that declares nothing.
   */
  datatype Segment =
    | Typed(before: string, name: string, gap: string, gap': string, ty: Type, after: string)
    | SelfParam(before: string, text: string, after: string)
    | Silent(text: string)

  /** Without brackets and commas, and either without a colon or with nothing in front of the first one. */
  ghost predicate IsSilent(text: string) {
    && (forall i :: 0 <= i < |text| ==> IsQuiet(text[i]))
    && (':' !in text || exists blank, rest :: Blank(blank) && text == blank + ":" + rest)
  }

  ghost predicate WellFormedSegment(seg: Segment) {
    match seg
    case Typed(before, name, gap, gap', ty, after) =>
      Blank(before) && Blank(gap) && Blank(gap') && Blank(after) && IsName(name) && WellFormed(ty)
    case SelfParam(before, text, after) =>
      Blank(before) && Blank(after) && (text == "self" || text == "&self" || text == "&mut self")
    case Silent(text) => IsSilent(text)
  }

  ghost predicate WellFormedSegments(segs: seq<Segment>) {
    forall i :: 0 <= i < |segs| ==> WellFormedSegment(segs[i])
  }

  function Write(seg: Segment): string {
    match seg
    case Typed(before, name, gap, gap', ty, after) => before + name + gap + ":" + gap' + Print(ty) + after
    case SelfParam(before, text, after) => before + text + after
    case Silent(text) => text
  }

  /** The segments with commas between them. */
  function Join(segs: seq<Segment>): string {
    if segs == [] then ""
    else if |segs| == 1 then Write(segs[0])
    else Write(segs[0]) + "," + Join(segs[1..])
  }

  function Declares(seg: Segment): seq<(string, string)> {
    if seg.Typed? then [(seg.name, Print(seg.ty))] else []
  }

  function DeclaresAll(segs: seq<Segment>): seq<(string, string)> {
    if segs == [] then [] else Declares(segs[0]) + DeclaresAll(segs[1..])
  }

  predicate IsParenFree(s: string) { '(' !in s && ')' !in s }

  lemma NameIsParenFree(s: string)
    requires IsName(s)
    ensures IsParenFree(s) && '<' !in s && ':' !in s
  {
    forall c | c in s ensures IsNameChar(c) { var i :| 0 <= i < |s| && s[i] == c; }
  }

  lemma ReadTyped(before: string, name: string, gap: string, gap': string, text: string, after: string)
    requires Blank(before) && Blank(gap) && Blank(gap') && Blank(after) && IsName(name) && Tight(text)
    ensures ReadSegment(before + name + gap + ":" + gap' + text + after) == [(name, text)]
  {
    hide Find, Trim, IsReceiver, Blank;
    var seg := name + gap + ":" + gap' + text;
    NameIsTight(name);
    assert before + name + gap + ":" + gap' + text + after == before + seg + after;
    assert Tight(seg) by { assert seg[0] == name[0] && seg[|seg| - 1] == text[|text| - 1]; }
    TrimsBlanks(before, seg, after);
    assert seg[|name + gap|] == ':';
    ColonIsNoReceiver(seg);
    HasNoColon(name, gap);
    assert seg == (name + gap) + ":" + (gap' + text);
    FindFirst(name + gap, ":", gap' + text);
    assert seg[..|name + gap|] == "" + name + gap && seg[|name + gap| + 1..] == gap' + text + "";
    BlankEmpty();
    TrimsBlanks("", name, gap);
    TrimsBlanks(gap', text, "");
  }

  lemma NameIsTight(name: string)
    requires IsName(name)
    ensures Tight(name)
  {
    assert IsNameChar(name[0]) && IsNameChar(name[|name| - 1]);
  }

  lemma HasNoColon(name: string, gap: string)
    requires IsName(name) && Blank(gap)
    ensures ':' !in name + gap
  {
    NameIsParenFree(name);
  }

  lemma BlankEmpty()
    ensures Blank("")
  {
  }

  lemma {:induction false} TrimEndKeeps(s: string)
    requires s != [] && !IsSpace(s[0])
    ensures TrimEnd(s) != [] && TrimEnd(s)[0] == s[0]
    decreases |s|
  {
    if IsSpace(s[|s| - 1]) { TrimEndKeeps(s[..|s| - 1]); }
  }

  /** Neither a segment without a colon nor one with no name in front of it declares anything. */
  lemma ReadSilent(text: string)
    requires ':' !in text || exists blank, rest :: Blank(blank) && text == blank + ":" + rest
    ensures ReadSegment(text) == []
  {
    hide Find, Blank;
    if ':' !in text {
      var a, b := TrimCuts(text);
      assert forall c | c in Trim(text) :: c in a + Trim(text) + b;
      NotFound(Trim(text), ':');
    } else {
      var blank, rest :| Blank(blank) && text == blank + ":" + rest;
      var s := ":" + rest;
      assert text == blank + s + "";
      BlankEmpty();
      TrimIgnoresBlanks(blank, s, "");
      assert TrimStart(s) == s;
      TrimEndKeeps(s);
      var t := Trim(text);
      assert t == "" + ":" + t[1..];
      FindFirst("", ":", t[1..]);
      assert t[..0] == "" && Trim("") == "";
    }
  }

  lemma ReadWritten(seg: Segment)
    requires WellFormedSegment(seg)
    ensures ReadSegment(Write(seg)) == Declares(seg)
  {
    hide Find, Trim, Print;
    match seg
    case Typed(before, name, gap, gap', ty, after) =>
      PrintIsTight(ty);
      ReadTyped(before, name, gap, gap', Print(ty), after);
    case SelfParam(before, text, after) => TrimsBlanks(before, text, after);
    case Silent(text) => ReadSilent(text);
  }

  lemma QuietTexts(s: string)
    requires IsName(s) || Blank(s) || IsReceiver(s)
    ensures forall i :: 0 <= i < |s| ==> IsQuiet(s[i])
  {
    if IsName(s) {
      assert forall i :: 0 <= i < |s| ==> IsNameChar(s[i]);
    } else if Blank(s) {
      forall i | 0 <= i < |s| ensures IsQuiet(s[i]) { assert s[i] in s; }
    }
  }

  lemma QuietColon()
    ensures IsQuiet(':')
  {
  }

  lemma ScanWritten(seg: Segment, rest: string)
    requires WellFormedSegment(seg)
    ensures Scan(Write(seg) + rest, "", 0, 0) == Scan(rest, Write(seg), 0, 0)
  {
    hide Scan, Blank, IsName, Print, IsQuiet, WellFormed;
    match seg
    case Typed(before, name, gap, gap', ty, after) => ScanTyped(before, name, gap, gap', ty, after, rest);
    case SelfParam(before, text, after) =>
      QuietTexts(before);
      QuietTexts(text);
      QuietTexts(after);
      ScanQuiet(Write(seg), rest, "", 0, 0);
      assert "" + Write(seg) == Write(seg);
    case Silent(text) =>
      ScanQuiet(text, rest, "", 0, 0);
      assert "" + text == text;
  }

  lemma ScanTyped(before: string, name: string, gap: string, gap': string, ty: Type, after: string, rest: string)
    requires Blank(before) && Blank(gap) && Blank(gap') && Blank(after) && IsName(name) && WellFormed(ty)
    ensures var text := before + name + gap + ":" + gap' + Print(ty) + after;
      Scan(text + rest, "", 0, 0) == Scan(rest, text, 0, 0)
  {
    hide Scan, Blank, IsName, Print, IsQuiet, WellFormed;
    var prefix, text := before + name + gap + ":" + gap', Print(ty);
    QuietPrefix(before, name, gap, gap');
    QuietTexts(after);
    assert prefix + text + after + rest == prefix + (text + (after + rest));
    ScanQuiet(prefix, text + (after + rest), "", 0, 0);
    ScanType(ty, after + rest, "" + prefix, 0, 0);
    ScanQuiet(after, rest, "" + prefix + text, 0, 0);
    assert "" + prefix + text + after == prefix + text + after;
  }

  lemma QuietPrefix(before: string, name: string, gap: string, gap': string)
    requires Blank(before) && Blank(gap) && Blank(gap') && IsName(name)
    ensures forall i :: 0 <= i < |before + name + gap + ":" + gap'| ==> IsQuiet((before + name + gap + ":" + gap')[i])
  {
    hide Blank, IsName, IsQuiet;
    QuietTexts(before);
    QuietTexts(name);
    QuietTexts(gap);
    QuietTexts(gap');
    QuietColon();
  }

  lemma {:induction false} ScanJoined(segs: seq<Segment>)
    requires segs != [] && WellFormedSegments(segs)
    ensures ReadSegments(Scan(Join(segs), "", 0, 0)) == DeclaresAll(segs)
    decreases |segs|
  {
    hide Scan, ReadSegment, Write, WellFormedSegment, Declares;
    var first := Write(segs[0]);
    ReadWritten(segs[0]);
    if |segs| == 1 {
      ScanWritten(segs[0], "");
      assert first + "" == first && segs[1..] == [];
      ScanEnd(first);
      ReadOnly([first]);
    } else {
      var others := Join(segs[1..]);
      assert Join(segs) == first + ([','] + others);
      ScanWritten(segs[0], [','] + others);
      ScanOne(',', others, first, 0, 0);
      assert forall i :: 0 <= i < |segs[1..]| ==> segs[1..][i] == segs[i + 1];
      ScanJoined(segs[1..]);
      var tail := Scan(others, "", 0, 0);
      assert ([first] + tail)[1..] == tail;
      assert ReadSegments([first] + tail) == ReadSegment(first) + ReadSegments(tail);
    }
  }

  lemma ReadOnly(segments: seq<string>)
    requires |segments| == 1
    ensures ReadSegments(segments) == ReadSegment(segments[0])
  {
    assert segments[1..] == [];
  }

  lemma ScanEnd(cur: string)
    ensures forall depth: nat, parens: nat :: Scan("", cur, depth, parens) == [cur]
  {
  }

  // ----- Trimming the whole list is harmless -----

  predicate Cuts(c: char, depth: nat, parens: nat) { c == ',' && depth == 0 && parens == 0 }

  function Depths(c: char, depth: nat, parens: nat): (nat, nat) {
    if c == '<' then (depth + 1, parens)
    else if c == '>' && depth > 0 then (depth - 1, parens)
    else if c == '(' then (depth, parens + 1)
    else if c == ')' && parens > 0 then (depth, parens - 1)
    else (depth, parens)
  }

  lemma ScanNext(s: string, cur: string, depth: nat, parens: nat)
    requires s != []
    ensures Scan(s, cur, depth, parens) ==
      if Cuts(s[0], depth, parens) then [cur] + Scan(s[1..], "", 0, 0)
      else Scan(s[1..], cur + [s[0]], Depths(s[0], depth, parens).0, Depths(s[0], depth, parens).1)
  {
    hide Scan;
    var c, rest := s[0], s[1..];
    assert s == [c] + rest;
    ScanOne(c, rest, cur, depth, parens);
    if (c == '>' && depth == 0) || (c == ')' && parens == 0) { ScanUnmatched(c, rest, cur, depth, parens); }
    if IsQuiet(c) { ScanQuiet([c], rest, cur, depth, parens); }
  }

  lemma ScanUnmatched(c: char, rest: string, cur: string, depth: nat, parens: nat)
    requires (c == '>' && depth == 0) || (c == ')' && parens == 0)
    ensures Scan([c] + rest, cur, depth, parens) == Scan(rest, cur + [c], depth, parens)
  {
    assert ([c] + rest)[0] == c && ([c] + rest)[1..] == rest;
  }

  lemma {:induction false} ScanBehind(s: string, a: string, cur: string, depth: nat, parens: nat)
    ensures var segments := Scan(s, cur, depth, parens);
      segments != [] && Scan(s, a + cur, depth, parens) == [a + segments[0]] + segments[1..]
    decreases |s|
  {
    hide Scan, Cuts, Depths;
    if s == [] {
      ScanEnd(cur);
      ScanEnd(a + cur);
    } else {
      ScanNext(s, cur, depth, parens);
      ScanNext(s, a + cur, depth, parens);
      if !Cuts(s[0], depth, parens) {
        assert a + cur + [s[0]] == a + (cur + [s[0]]);
        ScanBehind(s[1..], a, cur + [s[0]], Depths(s[0], depth, parens).0, Depths(s[0], depth, parens).1);
      }
    }
  }

  lemma {:induction false} ScanBefore(s: string, b: string, cur: string, depth: nat, parens: nat)
    requires forall i :: 0 <= i < |b| ==> IsQuiet(b[i])
    ensures var segments := Scan(s, cur, depth, parens);
      segments != [] && Scan(s + b, cur, depth, parens) == segments[..|segments| - 1] + [segments[|segments| - 1] + b]
    decreases |s|
  {
    hide Scan, Cuts, Depths, IsQuiet;
    if s == [] {
      ScanQuiet(b, "", cur, depth, parens);
      assert s + b == b == b + "";
      ScanEnd(cur);
      ScanEnd(cur + b);
    } else {
      ScanNext(s, cur, depth, parens);
      ScanNext(s + b, cur, depth, parens);
      assert (s + b)[0] == s[0] && (s + b)[1..] == s[1..] + b;
      if Cuts(s[0], depth, parens) {
        ScanBefore(s[1..], b, "", 0, 0);
        var tail := Scan(s[1..], "", 0, 0);
        assert ([cur] + tail)[..|tail|] == [cur] + tail[..|tail| - 1];
      } else {
        ScanBefore(s[1..], b, cur + [s[0]], Depths(s[0], depth, parens).0, Depths(s[0], depth, parens).1);
      }
    }
  }

  /** Segments that differ in the blanks around them are read alike. */
  lemma {:induction false} SameIsReadAlike(x: seq<string>, y: seq<string>)
    requires |x| == |y| && forall i :: 0 <= i < |x| ==> Trim(x[i]) == Trim(y[i])
    ensures ReadSegments(x) == ReadSegments(y)
  {
    hide Trim, Find, IsReceiver;
    if x != [] {
      assert ReadSegment(x[0]) == ReadSegment(y[0]);
      assert forall i :: 0 <= i < |x[1..]| ==> x[1..][i] == x[i + 1] && y[1..][i] == y[i + 1];
      SameIsReadAlike(x[1..], y[1..]);
    }
  }

  lemma BlanksAroundAreIgnored(a: string, t: string, b: string)
    requires Blank(a) && Blank(b)
    ensures ReadSegments(Scan(a + t + b, "", 0, 0)) == ReadSegments(Scan(t, "", 0, 0))
  {
    hide Scan, ReadSegments, Trim, Blank;
    var x := Scan(t, "", 0, 0);
    var y := Scan(t + b, "", 0, 0);
    var z := Scan(a + (t + b), "", 0, 0);
    assert a + t + b == a + (t + b);
    QuietTexts(a);
    QuietTexts(b);
    ScanBefore(t, b, "", 0, 0);
    ScanQuiet(a, t + b, "", 0, 0);
    assert "" + a == a + "";
    ScanBehind(t + b, a, "", 0, 0);
    forall i | 0 <= i < |x| ensures Trim(x[i]) == Trim(z[i]) {
      BlankEmpty();
      var left, right := if i == 0 then a else "", if i == |x| - 1 then b else "";
      assert y[i] == x[i] + right;
      assert z[i] == left + x[i] + right;
      TrimIgnoresBlanks(left, x[i], right);
    }
    SameIsReadAlike(x, z);
  }

  /** A list is the concatenation of its segments, blanks at its ends or not. */
  lemma ListIsSegments(params: string)
    ensures ParamList(params) == ReadSegments(Scan(params, "", 0, 0))
  {
    hide Scan, Trim, Blank;
    var a, b := TrimCuts(params);
    BlanksAroundAreIgnored(a, Trim(params), b);
    if Trim(params) == [] { NothingToRead(); }
  }

  lemma NothingToRead()
    ensures ReadSegments(Scan("", "", 0, 0)) == []
  {
    assert Trim("") == "" && Find("", ":") == None;
    ReadOnly([""]);
  }

  /**
   * Names with their types, receivers and silent texts between commas, with blanks
   * anywhere around them: the list is read as its names and types in order.
   */
  lemma SegmentsAreRead(segs: seq<Segment>)
    requires segs != [] && WellFormedSegments(segs)
    ensures ParamList(Join(segs)) == DeclaresAll(segs)
  {
    hide Scan, ReadSegments, Join, DeclaresAll;
    ListIsSegments(Join(segs));
    ScanJoined(segs);
  }

  /** A list without a colon declares nothing. */
  lemma NoColonNoParameters(params: string)
    requires ':' !in params
    ensures ParamList(params) == []
  {
    hide Scan;
    ListIsSegments(params);
    ScanKeeps(params, "", 0, 0);
    SilentSegments(Scan(params, "", 0, 0));
  }

  lemma {:induction false} ScanKeeps(s: string, cur: string, depth: nat, parens: nat)
    requires ':' !in s && ':' !in cur
    ensures forall i :: 0 <= i < |Scan(s, cur, depth, parens)| ==> ':' !in Scan(s, cur, depth, parens)[i]
    decreases |s|
  {
    hide Scan, Cuts, Depths;
    if s == [] {
      ScanEnd(cur);
    } else {
      ScanNext(s, cur, depth, parens);
      assert s[0] in s && forall c | c in s[1..] :: c in s;
      if Cuts(s[0], depth, parens) {
        ScanKeeps(s[1..], "", 0, 0);
      } else {
        ScanKeeps(s[1..], cur + [s[0]], Depths(s[0], depth, parens).0, Depths(s[0], depth, parens).1);
      }
    }
  }

  lemma {:induction false} SilentSegments(segments: seq<string>)
    requires forall i :: 0 <= i < |segments| ==> ':' !in segments[i]
    ensures ReadSegments(segments) == []
  {
    hide ReadSegment;
    if segments != [] {
      ReadSilent(segments[0]);
      SilentSegments(segments[1..]);
    }
  }

  // ----- Printed lists -----

  function SegmentOf(p: Param, before: string, after: string): Segment {
    match p
    case Receiver(text) => SelfParam(before, text, after)
    case Named(name, ty) => Typed(before, name, "", " ", ty, after)
  }

  function SegmentsOf(ps: seq<Param>, before: string): seq<Segment> {
    if ps == [] then [] else [SegmentOf(ps[0], before, "")] + SegmentsOf(ps[1..], " ")
  }

  lemma SegmentOfIs(p: Param, before: string, after: string)
    requires WellFormedParam(p) && Blank(before) && Blank(after)
    ensures var seg := SegmentOf(p, before, after);
      WellFormedSegment(seg) && Write(seg) == before + PrintParam(p) + after
      && Declares(seg) == if p.Named? then [(p.name, Print(p.ty))] else []
  {
    hide Print, IsName;
    if p.Named? {
      assert before + p.name + "" + ":" + " " + Print(p.ty) + after == before + (p.name + ": " + Print(p.ty)) + after;
    }
  }

  lemma SegmentsOfStep(ps: seq<Param>, before: string, tail: seq<Segment>)
    requires ps != []
    ensures var all, others := SegmentsOf(ps, before) + tail, SegmentsOf(ps[1..], " ") + tail;
      all == [SegmentOf(ps[0], before, "")] + others && all[1..] == others && forall i :: 0 < i < |all| ==> all[i] == others[i - 1]
    ensures ps[0] in ps && forall q | q in ps[1..] :: q in ps
    ensures Blank("") && Blank(" ")
  {
    hide SegmentOf;
    var first, rest := SegmentOf(ps[0], before, ""), SegmentsOf(ps[1..], " ");
    assert [first] + rest + tail == [first] + (rest + tail);
    Prepended(first, rest + tail);
  }

  lemma Prepended(first: Segment, others: seq<Segment>)
    ensures var all := [first] + others; all[1..] == others && forall i :: 0 < i < |all| ==> all[i] == others[i - 1]
  {
  }

  lemma {:induction false} SegmentsFit(ps: seq<Param>, before: string, tail: seq<Segment>)
    requires WellFormedParams(ps) && Blank(before) && WellFormedSegments(tail)
    ensures WellFormedSegments(SegmentsOf(ps, before) + tail)
    decreases |ps|
  {
    hide WellFormedSegment, WellFormedParam, SegmentOf, SegmentsOf, Blank;
    if ps == [] {
      NoParams(before);
      assert [] + tail == tail;
    } else {
      SegmentsOfStep(ps, before, tail);
      SegmentOfIs(ps[0], before, "");
      SegmentsFit(ps[1..], " ", tail);
    }
  }

  lemma NoParams(before: string)
    ensures SegmentsOf([], before) == [] && Expected([]) == [] && DeclaresAll([]) == []
  {
  }

  lemma {:induction false} SegmentsDeclare(ps: seq<Param>, before: string, tail: seq<Segment>)
    requires WellFormedParams(ps) && Blank(before)
    ensures DeclaresAll(SegmentsOf(ps, before) + tail) == Expected(ps) + DeclaresAll(tail)
    decreases |ps|
  {
    hide WellFormedParam, SegmentOf, SegmentsOf, Declares, Blank;
    if ps == [] {
      NoParams(before);
      assert [] + tail == tail;
    } else {
      SegmentsOfStep(ps, before, tail);
      SegmentOfIs(ps[0], before, "");
      SegmentsDeclare(ps[1..], " ", tail);
      var first := Declares(SegmentOf(ps[0], before, ""));
      assert first + (Expected(ps[1..]) + DeclaresAll(tail)) == first + Expected(ps[1..]) + DeclaresAll(tail);
    }
  }

  lemma {:induction false} SegmentsPrint(ps: seq<Param>, before: string, tail: seq<Segment>)
    requires ps != [] && WellFormedParams(ps) && Blank(before)
    ensures Join(SegmentsOf(ps, before) + tail) == before + PrintParams(ps) + (if tail == [] then "" else "," + Join(tail))
    decreases |ps|
  {
    hide WellFormedParam, SegmentOf, SegmentsOf, PrintParam, Write, Blank;
    SegmentsOfStep(ps, before, tail);
    SegmentOfIs(ps[0], before, "");
    var text := before + PrintParam(ps[0]);
    assert text + "" == text;
    var others := SegmentsOf(ps[1..], " ") + tail;
    if |ps| == 1 {
      NoParams(" ");
      assert ps[1..] == [] && others == tail;
    } else {
      SegmentsPrint(ps[1..], " ", tail);
      NoSegments(ps[1..], " ");
      assert text + "," + (" " + PrintParams(ps[1..])) == before + (PrintParam(ps[0]) + ", " + PrintParams(ps[1..]));
    }
  }

  lemma NoSegments(ps: seq<Param>, before: string)
    requires ps != []
    ensures SegmentsOf(ps, before) != []
  {
  }

  /** Printing a parameter list and parsing it gives the named parameters back. */
  lemma ParamListRoundTrip(ps: seq<Param>)
    requires WellFormedParams(ps)
    ensures ParamList(PrintParams(ps)) == Expected(ps)
  {
    hide ParamList, Join, DeclaresAll, SegmentsOf;
    if ps == [] {
      NoColonNoParameters("");
      NoParams("");
    } else {
      BlankEmpty();
      var segs := SegmentsOf(ps, "");
      SegmentsFit(ps, "", []);
      SegmentsDeclare(ps, "", []);
      SegmentsPrint(ps, "", []);
      NoParams("");
      NoSegments(ps, "");
      assert segs + [] == segs && "" + PrintParams(ps) + "" == PrintParams(ps);
      SegmentsAreRead(segs);
    }
  }

  /** A comma and blanks behind the list, as formatters leave them, change nothing. */
  lemma TrailingCommaIsHarmless(ps: seq<Param>, a: string, b: string)
    requires ps != [] && WellFormedParams(ps) && Blank(a) && Blank(b)
    ensures ParamList(a + PrintParams(ps) + "," + b) == Expected(ps)
  {
    hide ParamList, SegmentsOf, Blank, WellFormedParams, Join, DeclaresAll, PrintParams, Expected, Scan, ReadSegments;
    var tail := [Silent(b)];
    var segs := SegmentsOf(ps, "") + tail;
    BlankEmpty();
    BlankIsSilent(b);
    SegmentsFit(ps, "", tail);
    SegmentsDeclare(ps, "", tail);
    SegmentsPrint(ps, "", tail);
    OneSilent(b);
    SegmentsAreRead(segs);
    assert Join(segs) == PrintParams(ps) + ("," + b);
    BlanksAroundAreIgnored(a, Join(segs), "");
    assert a + Join(segs) + "" == a + PrintParams(ps) + "," + b;
    ListIsSegments(Join(segs));
    ListIsSegments(a + PrintParams(ps) + "," + b);
  }

  lemma OneSilent(b: string)
    ensures Join([Silent(b)]) == b && DeclaresAll([Silent(b)]) == []
  {
    assert [Silent(b)][1..] == [];
  }

  lemma BlankIsSilent(b: string)
    requires Blank(b)
    ensures IsSilent(b)
  {
    QuietTexts(b);
  }
}
