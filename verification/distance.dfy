/** Levenshtein distance and the closest-candidate search built on it. */
module Distance {
  import opened Ast

  // ----- Edit scripts -----

  datatype Edit = Insert(at: nat, c: char) | Delete(at: nat) | Substitute(at: nat, c: char)

  function Apply(e: Edit, s: string): Option<string> {
    match e
    case Insert(i, c) => if i <= |s| then Some(s[..i] + [c] + s[i..]) else None
    case Delete(i) => if i < |s| then Some(s[..i] + s[i + 1..]) else None
    case Substitute(i, c) => if i < |s| then Some(s[..i] + [c] + s[i + 1..]) else None
  }

  /** The edits are applied left to right, each at any position of the current string. */
  predicate Turns(script: seq<Edit>, a: string, b: string) {
    if script == [] then a == b
    else Apply(script[0], a).Some? && Turns(script[1..], Apply(script[0], a).value, b)
  }

  // ----- The recurrence of the table -----

  function Cost(x: char, y: char): nat {
    if x == y then 0 else 1
  }

  function Least(x: nat, y: nat): nat {
    if x <= y then x else y
  }

  function Front(s: string): string
    requires s != []
  {
    s[..|s| - 1]
  }

  function Last(s: string): char
    requires s != []
  {
    s[|s| - 1]
  }

  function Distance(a: string, b: string): nat
    decreases |a| + |b|
  {
    if a == [] then |b|
    else if b == [] then |a|
    else Least(Least(Distance(Front(a), b) + 1, Distance(a, Front(b)) + 1),
               Distance(Front(a), Front(b)) + Cost(Last(a), Last(b)))
  }

  /** What the table cell (p, q) holds: the distance of the prefixes of length p and q. */
  ghost function Cell(a: string, b: string, p: nat, q: nat): nat
    requires p <= |a| && q <= |b|
  {
    Distance(a[..p], b[..q])
  }

  method EditDistance(a: string, b: string) returns (d: nat)
    ensures d == Distance(a, b)
  {
    hide Cell, Distance;
    var m, n := |a|, |b|;
    var dp := new nat[m + 1, n + 1]((i, j) => 0);
    for i := 0 to m + 1
      invariant forall p :: 0 <= p < i ==> dp[p, 0] == Cell(a, b, p, 0)
    {
      Edges(a, b);
      dp[i, 0] := i;
    }
    for j := 0 to n + 1
      invariant forall q :: 0 <= q < j ==> dp[0, q] == Cell(a, b, 0, q)
      invariant forall p :: 1 <= p <= m ==> dp[p, 0] == Cell(a, b, p, 0)
    {
      Edges(a, b);
      dp[0, j] := j;
    }
    for i := 1 to m + 1
      invariant forall p, q :: 0 <= p < i && 0 <= q <= n ==> dp[p, q] == Cell(a, b, p, q)
      invariant forall p :: 1 <= p <= m ==> dp[p, 0] == Cell(a, b, p, 0)
    {
      for j := 1 to n + 1
        invariant forall p, q :: 0 <= p < i && 0 <= q <= n ==> dp[p, q] == Cell(a, b, p, q)
        invariant forall p :: 1 <= p <= m ==> dp[p, 0] == Cell(a, b, p, 0)
        invariant forall q :: 0 <= q < j ==> dp[i, q] == Cell(a, b, i, q)
      {
        var cost := if a[i - 1] != b[j - 1] then 1 else 0;
        CellStep(a, b, i, j);
        dp[i, j] := Least(Least(dp[i - 1, j] + 1, dp[i, j - 1] + 1), dp[i - 1, j - 1] + cost);
      }
    }
    WholeCell(a, b);
    d := dp[m, n];
  }

  lemma Edges(a: string, b: string)
    ensures forall p: nat | p <= |a| :: Cell(a, b, p, 0) == p
    ensures forall q: nat | q <= |b| :: Cell(a, b, 0, q) == q
  {
  }

  lemma WholeCell(a: string, b: string)
    ensures Cell(a, b, |a|, |b|) == Distance(a, b)
  {
    assert a[..|a|] == a && b[..|b|] == b;
  }

  lemma CellStep(a: string, b: string, i: nat, j: nat)
    requires 1 <= i <= |a| && 1 <= j <= |b|
    ensures Cell(a, b, i, j) ==
      Least(Least(Cell(a, b, i - 1, j) + 1, Cell(a, b, i, j - 1) + 1), Cell(a, b, i - 1, j - 1) + Cost(a[i - 1], b[j - 1]))
  {
    assert Front(a[..i]) == a[..i - 1] && Front(b[..j]) == b[..j - 1];
  }

  // ----- The distance is a metric -----

  lemma {:induction false} Bounds(a: string, b: string)
    ensures |a| <= |b| + Distance(a, b) && |b| <= |a| + Distance(a, b)
    ensures Distance(a, b) <= |a| || Distance(a, b) <= |b|
    decreases |a| + |b|
  {
    if a != [] && b != [] {
      Bounds(Front(a), b);
      Bounds(a, Front(b));
      Bounds(Front(a), Front(b));
    }
  }

  lemma {:induction false} Symmetric(a: string, b: string)
    ensures Distance(a, b) == Distance(b, a)
    decreases |a| + |b|
  {
    if a != [] && b != [] {
      Symmetric(Front(a), b);
      Symmetric(a, Front(b));
      Symmetric(Front(a), Front(b));
    }
  }

  lemma {:induction false} ZeroIffEqual(a: string, b: string)
    ensures Distance(a, b) == 0 <==> a == b
    decreases |a| + |b|
  {
    if a != [] && b != [] {
      ZeroIffEqual(Front(a), Front(b));
      assert a == Front(a) + [Last(a)] && b == Front(b) + [Last(b)];
    }
  }

  lemma {:induction false} Triangle(a: string, b: string, c: string)
    ensures Distance(a, c) <= Distance(a, b) + Distance(b, c)
    decreases |a| + |b| + |c|
  {
    if a == [] || b == [] || c == [] {
      Bounds(a, b);
      Bounds(b, c);
      Bounds(a, c);
    } else {
      Triangle(Front(a), b, c);
      Triangle(a, b, Front(c));
      Triangle(a, Front(b), c);
      Triangle(a, Front(b), Front(c));
      Triangle(Front(a), Front(b), c);
      Triangle(Front(a), Front(b), Front(c));
    }
  }

  // ----- The distance is the length of a shortest script -----

  lemma SameEnding(a: string, b: string, x: char)
    ensures Distance(a + [x], b + [x]) <= Distance(a, b)
  {
    assert Front(a + [x]) == a && Front(b + [x]) == b;
  }

  lemma {:induction false} InsertCostsOne(front: string, c: char, back: string)
    ensures Distance(front + back, front + [c] + back) <= 1
    decreases |back|
  {
    if back == [] {
      assert front + back == front && front + [c] + back == front + [c];
      assert Front(front + [c]) == front;
      ZeroIffEqual(front, front);
    } else {
      InsertCostsOne(front, c, Front(back));
      SameEnding(front + Front(back), front + [c] + Front(back), Last(back));
      assert front + Front(back) + [Last(back)] == front + back;
      assert front + [c] + Front(back) + [Last(back)] == front + [c] + back;
    }
  }

  lemma {:induction false} SubstituteCostsOne(front: string, x: char, y: char, back: string)
    ensures Distance(front + [x] + back, front + [y] + back) <= 1
    decreases |back|
  {
    if back == [] {
      assert front + [x] + back == front + [x] && front + [y] + back == front + [y];
      assert Front(front + [x]) == front && Front(front + [y]) == front;
      ZeroIffEqual(front, front);
    } else {
      SubstituteCostsOne(front, x, y, Front(back));
      SameEnding(front + [x] + Front(back), front + [y] + Front(back), Last(back));
      assert front + [x] + Front(back) + [Last(back)] == front + [x] + back;
      assert front + [y] + Front(back) + [Last(back)] == front + [y] + back;
    }
  }

  lemma EditCostsOne(e: Edit, s: string)
    requires Apply(e, s).Some?
    ensures Distance(s, Apply(e, s).value) <= 1
  {
    hide Distance;
    var i := e.at;
    match e
    case Insert(_, c) =>
      InsertCostsOne(s[..i], c, s[i..]);
      assert s[..i] + s[i..] == s;
    case Delete(_) =>
      InsertCostsOne(s[..i], s[i], s[i + 1..]);
      assert s[..i] + [s[i]] + s[i + 1..] == s;
      Symmetric(s, Apply(e, s).value);
    case Substitute(_, c) =>
      SubstituteCostsOne(s[..i], s[i], c, s[i + 1..]);
      assert s[..i] + [s[i]] + s[i + 1..] == s;
  }

  /** No script is shorter than the distance. */
  lemma {:induction false} NoShorterScript(script: seq<Edit>, a: string, b: string)
    requires Turns(script, a, b)
    ensures Distance(a, b) <= |script|
  {
    if script == [] {
      ZeroIffEqual(a, b);
    } else {
      var a' := Apply(script[0], a).value;
      NoShorterScript(script[1..], a', b);
      EditCostsOne(script[0], a);
      Triangle(a, a', b);
    }
  }

  lemma {:induction false} TurnsThen(script: seq<Edit>, a: string, b: string, e: Edit)
    requires Turns(script, a, b) && Apply(e, b).Some?
    ensures Turns(script + [e], a, Apply(e, b).value)
  {
    if script == [] {
      assert [e][1..] == [];
    } else {
      TurnsThen(script[1..], Apply(script[0], a).value, b, e);
      assert (script + [e])[1..] == script[1..] + [e];
    }
  }

  lemma ApplyBefore(e: Edit, s: string, x: char)
    requires Apply(e, s).Some?
    ensures Apply(e, s + [x]) == Some(Apply(e, s).value + [x])
  {
    var i, t := e.at, s + [x];
    assert t[..i] == s[..i];
    match e
    case Insert(_, c) => assert t[..i] + [c] + t[i..] == s[..i] + [c] + s[i..] + [x];
    case Delete(_) => assert t[..i] + t[i + 1..] == s[..i] + s[i + 1..] + [x];
    case Substitute(_, c) => assert t[..i] + [c] + t[i + 1..] == s[..i] + [c] + s[i + 1..] + [x];
  }

  lemma {:induction false} TurnsBefore(script: seq<Edit>, a: string, b: string, x: char)
    requires Turns(script, a, b)
    ensures Turns(script, a + [x], b + [x])
  {
    if script != [] {
      ApplyBefore(script[0], a, x);
      TurnsBefore(script[1..], Apply(script[0], a).value, b, x);
    }
  }

  /** A script of exactly that length exists. */
  lemma {:induction false} ShortestScript(a: string, b: string) returns (script: seq<Edit>)
    ensures Turns(script, a, b) && |script| == Distance(a, b)
    decreases |a| + |b|
  {
    hide Turns, Apply;
    if a == [] && b == [] {
      script := [];
      NoEdits();
    } else if b != [] && (a == [] || Distance(a, b) == Distance(a, Front(b)) + 1) {
      script := ShortestScript(a, Front(b));
      script := EndByInserting(script, a, b);
    } else if b == [] || Distance(a, b) == Distance(Front(a), b) + 1 {
      script := ShortestScript(Front(a), b);
      script := StartByDeleting(script, a, b);
    } else {
      script := ShortestScript(Front(a), Front(b));
      script := MatchLast(script, a, b);
    }
  }

  lemma NoEdits()
    ensures Turns([], "", "")
  {
  }

  lemma EndByInserting(script: seq<Edit>, a: string, b: string) returns (longer: seq<Edit>)
    requires b != [] && Turns(script, a, Front(b))
    ensures Turns(longer, a, b) && |longer| == |script| + 1
  {
    var e := Insert(|b| - 1, Last(b));
    assert Apply(e, Front(b)).value == b;
    TurnsThen(script, a, Front(b), e);
    longer := script + [e];
  }

  lemma StartByDeleting(script: seq<Edit>, a: string, b: string) returns (longer: seq<Edit>)
    requires a != [] && Turns(script, Front(a), b)
    ensures Turns(longer, a, b) && |longer| == |script| + 1
  {
    longer := [Delete(|a| - 1)] + script;
    assert Apply(longer[0], a).value == Front(a) && longer[1..] == script;
  }

  lemma MatchLast(script: seq<Edit>, a: string, b: string) returns (longer: seq<Edit>)
    requires a != [] && b != [] && Turns(script, Front(a), Front(b))
    ensures Turns(longer, a, b) && |longer| == |script| + Cost(Last(a), Last(b))
  {
    TurnsBefore(script, Front(a), Front(b), Last(a));
    assert Front(a) + [Last(a)] == a;
    if Last(a) == Last(b) {
      assert Front(b) + [Last(a)] == b;
      longer := script;
    } else {
      var e := Substitute(|b| - 1, Last(b));
      assert Apply(e, Front(b) + [Last(a)]).value == b;
      TurnsThen(script, a, Front(b) + [Last(a)], e);
      longer := script + [e];
    }
  }

  /** `Distance(a, b) <= n` exactly when some script of at most `n` edits turns a into b. */
  lemma DistanceIsShortestScript(a: string, b: string, n: nat)
    ensures Distance(a, b) <= n <==> exists script :: Turns(script, a, b) && |script| <= n
  {
    var best := ShortestScript(a, b);
    forall script | Turns(script, a, b) && |script| <= n ensures Distance(a, b) <= n {
      NoShorterScript(script, a, b);
    }
  }

  // ----- Closest candidate -----

  function LowerChar(c: char): char {
    if 'A' <= c <= 'Z' then ((c as int - 'A' as int) + 'a' as int) as char else c
  }

  function Lower(s: string): (r: string)
    ensures |r| == |s|
  {
    if s == [] then [] else [LowerChar(s[0])] + Lower(s[1..])
  }

  /** The same character, or an ASCII letter in the other case. */
  predicate SameLetter(c: char, d: char) {
    || c == d
    || ('A' <= c <= 'Z' && d as int == c as int + 32)
    || ('A' <= d <= 'Z' && c as int == d as int + 32)
  }

  predicate SameUpToCase(a: string, b: string) {
    |a| == |b| && forall i :: 0 <= i < |a| ==> SameLetter(a[i], b[i])
  }

  lemma {:induction false} LowerAt(s: string, i: nat)
    requires i < |s|
    ensures Lower(s)[i] == LowerChar(s[i])
  {
    if i > 0 { LowerAt(s[1..], i - 1); }
  }

  lemma LowerIffSame(a: string, b: string)
    ensures Lower(a) == Lower(b) <==> SameUpToCase(a, b)
  {
    hide Lower;
    forall i | 0 <= i < |a| ensures Lower(a)[i] == LowerChar(a[i]) { LowerAt(a, i); }
    forall i | 0 <= i < |b| ensures Lower(b)[i] == LowerChar(b[i]) { LowerAt(b, i); }
    if Lower(a) == Lower(b) {
      forall i | 0 <= i < |a| ensures SameLetter(a[i], b[i]) { assert Lower(a)[i] == Lower(b)[i]; }
    }
  }

  /** Candidates that differ from the input in case only, and no others, are at distance 0. */
  lemma FarZeroIff(a: string, b: string)
    ensures Far(a, b) == 0 <==> SameUpToCase(a, b)
  {
    hide Lower, Distance;
    ZeroIffEqual(Lower(a), Lower(b));
    LowerIffSame(a, b);
  }

  /** Changing the case of letters changes no distance. */
  lemma FarIgnoresCase(a: string, a': string, b: string, b': string)
    requires SameUpToCase(a, a') && SameUpToCase(b, b')
    ensures Far(a, b) == Far(a', b')
  {
    hide Lower, Distance;
    LowerIffSame(a, a');
    LowerIffSame(b, b');
  }

  function Threshold(length: nat): nat {
    if length <= 2 then 1 else if length <= 5 then 2 else 3
  }

  function Far(input: string, candidate: string): nat {
    Distance(Lower(input), Lower(candidate))
  }

  /** An exact match, or within the threshold and closer than the input is long. */
  predicate CloseEnough(input: string, candidate: string) {
    var d := Far(input, candidate);
    d == 0 || (d <= Threshold(|input|) && d < |input|)
  }

  /** Candidate `k` is the earliest of those at the least distance. */
  ghost predicate EarliestClosest(input: string, candidates: seq<string>, k: nat) {
    && k < |candidates|
    && (forall j :: 0 <= j < |candidates| ==> Far(input, candidates[k]) <= Far(input, candidates[j]))
    && (forall j :: 0 <= j < k ==> Far(input, candidates[k]) < Far(input, candidates[j]))
  }

  /** One edit is always close, two from length 3 on, three from length 6 on, and never as many as the input is long. */
  lemma CloseEnoughMeans(input: string, candidate: string)
    ensures CloseEnough(input, candidate) <==>
      var d := Far(input, candidate);
      SameUpToCase(input, candidate) || (d < |input| && (d == 1 || (d == 2 && 3 <= |input|) || (d == 3 && 6 <= |input|)))
  {
    FarZeroIff(input, candidate);
  }

  /** Neither the case of the input nor that of a candidate changes which candidate is answered. */
  lemma AnswerIgnoresCase(input: string, candidates: seq<string>, input': string, candidates': seq<string>)
    requires SameUpToCase(input, input') && |candidates| == |candidates'|
    requires forall i :: 0 <= i < |candidates| ==> SameUpToCase(candidates[i], candidates'[i])
    ensures forall i :: 0 <= i < |candidates| ==> (CloseEnough(input, candidates[i]) <==> CloseEnough(input', candidates'[i]))
    ensures forall k: nat :: EarliestClosest(input, candidates, k) <==> EarliestClosest(input', candidates', k)
  {
    hide Far, SameUpToCase;
    assert |input| == |input'| by { SameLength(input, input'); }
    forall i | 0 <= i < |candidates| ensures Far(input, candidates[i]) == Far(input', candidates'[i]) {
      FarIgnoresCase(input, input', candidates[i], candidates'[i]);
    }
  }

  lemma SameLength(a: string, b: string)
    requires SameUpToCase(a, b)
    ensures |a| == |b|
  {
  }

  /** The earliest closest candidate is one only. */
  lemma EarliestIsUnique(input: string, candidates: seq<string>, k: nat, k': nat)
    requires EarliestClosest(input, candidates, k) && k' < |candidates| && k' != k
    ensures !EarliestClosest(input, candidates, k')
  {
    hide Far;
    var here, there := Far(input, candidates[k]), Far(input, candidates[k']);
    assert here <= there && (k' < k ==> here < there);
  }

  method DidYouMean(input: string, candidates: seq<string>) returns (answer: Option<string>)
    ensures (exists j :: 0 <= j < |candidates| && SameUpToCase(input, candidates[j])) ==>
      answer.Some? && SameUpToCase(input, answer.value)
    ensures answer.Some? <==> exists j :: 0 <= j < |candidates| && CloseEnough(input, candidates[j])
    ensures answer.Some? ==> exists k: nat :: EarliestClosest(input, candidates, k) && answer.value == candidates[k]
  {
    hide Distance, Lower, SameUpToCase;
    forall c ensures Far(input, c) == 0 <==> SameUpToCase(input, c) { FarZeroIff(input, c); }
    var threshold := Threshold(|input|);
    var best: Option<(string, nat)> := None;
    ghost var at: nat := 0;
    for i := 0 to |candidates|
      invariant best.None? ==> forall j :: 0 <= j < i ==> !CloseEnough(input, candidates[j])
      invariant best.Some? ==> CloseEnough(input, best.value.0) && best.value.1 == Far(input, best.value.0) > 0
      invariant best.Some? ==> EarliestClosest(input, candidates[..i], at) && best.value.0 == candidates[at]
    {
      var cand := candidates[i];
      var dist := EditDistance(Lower(input), Lower(cand));
      if dist == 0 {
        assert CloseEnough(input, candidates[i]);
        assert forall j :: 0 <= j < i ==> Far(input, candidates[j]) > 0 by {
          if best.Some? { assert forall j :: 0 <= j < i ==> candidates[..i][j] == candidates[j]; }
        }
        assert EarliestClosest(input, candidates, i);
        return Some(cand);
      }
      if dist <= threshold && dist < |input| && (best.None? || dist < best.value.1) {
        best := Some((cand, dist));
        at := i;
      }
      assert forall j :: 0 <= j < i ==> candidates[..i + 1][j] == candidates[..i][j];
    }
    assert candidates[..|candidates|] == candidates;
    answer := if best.Some? then Some(best.value.0) else None;
  }
}
