/**
 * Parameters synthesised for a contract without an `input` clause: the free names of its
 * requires, ensures and invariant clauses, each once, in sorted order.
 */
module Idents {

  /**
   * What the walk over an expression distinguishes. A node lists the subexpressions that
   * are visited, in order; the callee of a call is not among them, and a raw token that
   * starts like a name is one. A scope is a `let`, or one arm of a `match` with an empty
   * outer part: its names are bound in the body, which the walk does not know.
   */
  datatype Term =
    | Name(name: string)
    | Node(kids: seq<Term>)
    | Quantifier(bound: string, domain: Term, body: Term)
    | Scope(names: set<string>, outer: Term, body: Term)

  predicate IsKeyword(x: string) { x == "result" || x == "true" || x == "false" }

  class FreeIdents {
    var idents: set<string>

    constructor ()
      ensures idents == {}
    {
      idents := {};
    }

    method Collect(e: Term)
      modifies this
      ensures idents == Walk(e, old(idents))
      decreases e, 0
    {
      match e {
        case Name(x) => if !IsKeyword(x) { idents := idents + {x}; }
        case Node(kids) =>
          for i := 0 to |kids|
            invariant WalkAll(kids, old(idents)) == WalkAll(kids[i..], idents)
          {
            assert kids[i..][0] == kids[i] && kids[i..][1..] == kids[i + 1..];
            Collect(kids[i]);
          }
        case Quantifier(x, domain, body) =>
          Collect(body);
          Collect(domain);
          idents := idents - {x};
        case Scope(_, outer, body) =>
          Collect(outer);
          Collect(body);
      }
    }
  }

  /** The accumulated set after walking `e`. */
  function Walk(e: Term, idents: set<string>): set<string>
    decreases e, 0
  {
    match e
    case Name(x) => if IsKeyword(x) then idents else idents + {x}
    case Node(kids) => WalkAll(kids, idents)
    case Quantifier(x, domain, body) => Walk(domain, Walk(body, idents)) - {x}
    case Scope(_, outer, body) => Walk(body, Walk(outer, idents))
  }

  function WalkAll(kids: seq<Term>, idents: set<string>): set<string>
    decreases kids
  {
    if kids == [] then idents else WalkAll(kids[1..], Walk(kids[0], idents))
  }

  // ----- Free and bound names -----

  function Free(e: Term): set<string>
    decreases e, 0
  {
    match e
    case Name(x) => {x} - {"result", "true", "false"}
    case Node(kids) => FreeInAny(kids)
    case Quantifier(x, domain, body) => Free(domain) + (Free(body) - {x})
    case Scope(names, outer, body) => Free(outer) + (Free(body) - names)
  }

  function FreeInAny(kids: seq<Term>): set<string>
    decreases kids
  {
    if kids == [] then {} else Free(kids[0]) + FreeInAny(kids[1..])
  }

  /** Names that some quantifier binds. */
  function Bound(e: Term): set<string>
    decreases e, 0
  {
    match e
    case Name(_) => {}
    case Node(kids) => BoundInAny(kids)
    case Quantifier(x, domain, body) => Bound(domain) + Bound(body) + {x}
    case Scope(_, outer, body) => Bound(outer) + Bound(body)
  }

  function BoundInAny(kids: seq<Term>): set<string>
    decreases kids
  {
    if kids == [] then {} else Bound(kids[0]) + BoundInAny(kids[1..])
  }

  /** Names that some `let` or `match` arm binds. */
  function Scoped(e: Term): set<string>
    decreases e, 0
  {
    match e
    case Name(_) => {}
    case Node(kids) => ScopedInAny(kids)
    case Quantifier(_, domain, body) => Scoped(domain) + Scoped(body)
    case Scope(names, outer, body) => Scoped(outer) + Scoped(body) + names
  }

  function ScopedInAny(kids: seq<Term>): set<string>
    decreases kids
  {
    if kids == [] then {} else Scoped(kids[0]) + ScopedInAny(kids[1..])
  }

  /** The walk adds only free names and names of scopes, and loses only names that a quantifier binds. */
  lemma {:induction false} WalkBounds(e: Term, idents: set<string>)
    ensures Walk(e, idents) <= idents + Free(e) + Scoped(e)
    ensures idents + Free(e) <= Walk(e, idents) + Bound(e)
    decreases e, 0
  {
    match e
    case Name(_) =>
    case Node(kids) => WalkAllBounds(kids, idents);
    case Quantifier(_, domain, body) =>
      WalkBounds(body, idents);
      WalkBounds(domain, Walk(body, idents));
    case Scope(_, outer, body) =>
      WalkBounds(outer, idents);
      WalkBounds(body, Walk(outer, idents));
  }

  lemma {:induction false} WalkAllBounds(kids: seq<Term>, idents: set<string>)
    ensures WalkAll(kids, idents) <= idents + FreeInAny(kids) + ScopedInAny(kids)
    ensures idents + FreeInAny(kids) <= WalkAll(kids, idents) + BoundInAny(kids)
    decreases kids
  {
    if kids != [] {
      WalkBounds(kids[0], idents);
      WalkAllBounds(kids[1..], Walk(kids[0], idents));
    }
  }

  /** When no name is both free and bound, the walk over all clauses collects the free names. */
  lemma CollectsFreeNames(clauses: seq<Term>)
    requires FreeInAny(clauses) !! BoundInAny(clauses) && ScopedInAny(clauses) == {}
    ensures WalkAll(clauses, {}) == FreeInAny(clauses)
  {
    WalkAllBounds(clauses, {});
  }

  // ----- When exactly the free names are collected -----

  /** What a visit meets: an occurrence of a name, or the end of a quantifier that binds it. */
  datatype Event = Use(name: string) | Drop(name: string)

  function Trace(e: Term): seq<Event>
    decreases e, 0
  {
    match e
    case Name(x) => if IsKeyword(x) then [] else [Use(x)]
    case Node(kids) => TraceAll(kids)
    case Quantifier(x, domain, body) => Trace(body) + Trace(domain) + [Drop(x)]
    case Scope(_, outer, body) => Trace(outer) + Trace(body)
  }

  function TraceAll(kids: seq<Term>): seq<Event>
    decreases kids
  {
    if kids == [] then [] else Trace(kids[0]) + TraceAll(kids[1..])
  }

  /** `x` occurs, and no quantifier binding `x` ends after its last occurrence. */
  ghost predicate LastIsUse(t: seq<Event>, x: string) {
    exists j :: 0 <= j < |t| && t[j] == Use(x) && Drop(x) !in t[j..]
  }

  lemma LastIsUseConcat(a: seq<Event>, b: seq<Event>, x: string)
    ensures LastIsUse(a + b, x) <==> LastIsUse(b, x) || (LastIsUse(a, x) && Drop(x) !in b)
  {
    var t := a + b;
    if LastIsUse(t, x) {
      var j :| 0 <= j < |t| && t[j] == Use(x) && Drop(x) !in t[j..];
      if j < |a| {
        assert t[j..] == a[j..] + b;
        assert a[j] == Use(x);
      } else {
        assert t[j..] == b[j - |a|..] && b[j - |a|] == Use(x);
      }
    }
    if LastIsUse(b, x) {
      var j :| 0 <= j < |b| && b[j] == Use(x) && Drop(x) !in b[j..];
      assert t[|a| + j..] == b[j..] && t[|a| + j] == Use(x);
    }
    if LastIsUse(a, x) && Drop(x) !in b {
      var j :| 0 <= j < |a| && a[j] == Use(x) && Drop(x) !in a[j..];
      assert t[j..] == a[j..] + b && t[j] == Use(x);
    }
  }

  lemma LastOfOne(v: Event, x: string)
    ensures LastIsUse([v], x) <==> v == Use(x)
  {
    if v == Use(x) { assert [v][0..] == [v] && [v][0] == Use(x); }
  }

  ghost predicate Survives(t: seq<Event>, idents: set<string>, x: string) {
    LastIsUse(t, x) || (x in idents && Drop(x) !in t)
  }

  lemma SurvivesConcat(a: seq<Event>, b: seq<Event>, idents: set<string>, middle: set<string>, x: string)
    requires x in middle <==> Survives(a, idents, x)
    ensures Survives(a + b, idents, x) <==> Survives(b, middle, x)
  {
    LastIsUseConcat(a, b, x);
  }

  /** A name is in the set after a walk exactly when it was last used, or was there and never dropped. */
  lemma {:induction false} WalkKeeps(e: Term, idents: set<string>, x: string)
    ensures x in Walk(e, idents) <==> Survives(Trace(e), idents, x)
    decreases e, 0
  {
    hide LastIsUse;
    match e
    case Name(y) => if IsKeyword(y) { NothingUsed(x); } else { LastOfOne(Use(y), x); }
    case Node(kids) => WalkAllKeeps(kids, idents, x);
    case Quantifier(y, domain, body) =>
      WalkKeeps(body, idents, x);
      WalkKeeps(domain, Walk(body, idents), x);
      var inside, after := Trace(body) + Trace(domain), Walk(domain, Walk(body, idents));
      SurvivesConcat(Trace(body), Trace(domain), idents, Walk(body, idents), x);
      SurvivesConcat(inside, [Drop(y)], idents, after, x);
      LastOfOne(Drop(y), x);
    case Scope(_, outer, body) =>
      WalkKeeps(outer, idents, x);
      WalkKeeps(body, Walk(outer, idents), x);
      SurvivesConcat(Trace(outer), Trace(body), idents, Walk(outer, idents), x);
  }

  lemma NothingUsed(x: string)
    ensures !LastIsUse([], x)
  {
  }

  lemma {:induction false} WalkAllKeeps(kids: seq<Term>, idents: set<string>, x: string)
    ensures x in WalkAll(kids, idents) <==> Survives(TraceAll(kids), idents, x)
    decreases kids
  {
    hide LastIsUse;
    if kids == [] {
      NothingUsed(x);
    } else {
      WalkKeeps(kids[0], idents, x);
      WalkAllKeeps(kids[1..], Walk(kids[0], idents), x);
      SurvivesConcat(Trace(kids[0]), TraceAll(kids[1..]), idents, Walk(kids[0], idents), x);
    }
  }

  lemma {:induction false} FreeIsUsed(e: Term, x: string)
    requires x in Free(e)
    ensures Use(x) in Trace(e)
    decreases e, 0
  {
    match e
    case Name(_) =>
    case Node(kids) => FreeIsUsedInAny(kids, x);
    case Quantifier(_, domain, body) => if x in Free(domain) { FreeIsUsed(domain, x); } else { FreeIsUsed(body, x); }
    case Scope(_, outer, body) => if x in Free(outer) { FreeIsUsed(outer, x); } else { FreeIsUsed(body, x); }
  }

  lemma {:induction false} FreeIsUsedInAny(kids: seq<Term>, x: string)
    requires x in FreeInAny(kids)
    ensures Use(x) in TraceAll(kids)
    decreases kids
  {
    if x in Free(kids[0]) { FreeIsUsed(kids[0], x); } else { FreeIsUsedInAny(kids[1..], x); }
  }

  /**
   * The walk over all clauses yields exactly the free names exactly when, for every name
   * that occurs, the last thing the walk meets is an occurrence if and only if it is free.
   */
  lemma CollectsFreeNamesIff(clauses: seq<Term>)
    ensures WalkAll(clauses, {}) == FreeInAny(clauses)
       <==> forall x | Use(x) in TraceAll(clauses) :: LastIsUse(TraceAll(clauses), x) <==> x in FreeInAny(clauses)
  {
    forall x ensures x in WalkAll(clauses, {}) <==> LastIsUse(TraceAll(clauses), x) {
      WalkAllKeeps(clauses, {}, x);
    }
    forall x | x in FreeInAny(clauses) ensures Use(x) in TraceAll(clauses) {
      FreeIsUsedInAny(clauses, x);
    }
  }

  /** Without `let` and `match`: exactly when no quantifier ends after the last occurrence of a free name. */
  lemma ErasedIff(clauses: seq<Term>)
    requires ScopedInAny(clauses) == {}
    ensures WalkAll(clauses, {}) == FreeInAny(clauses)
       <==> forall x | x in FreeInAny(clauses) :: LastIsUse(TraceAll(clauses), x)
  {
    WalkAllBounds(clauses, {});
    forall x ensures x in WalkAll(clauses, {}) <==> LastIsUse(TraceAll(clauses), x) {
      WalkAllKeeps(clauses, {}, x);
    }
  }

  /** A name that is only bound by a `let` becomes a parameter. */
  lemma LetNameIsCollected(x: string, value: string)
    requires !IsKeyword(x) && !IsKeyword(value) && x != value
    ensures var clause := Scope({x}, Name(value), Name(x));
      FreeInAny([clause]) == {value} && WalkAll([clause], {}) == {value, x}
  {
    var clause := Scope({x}, Name(value), Name(x));
    assert [clause][1..] == [];
    assert Free(clause) == {value} + ({x} - {x});
    assert Walk(clause, {}) == Walk(Name(x), Walk(Name(value), {}));
  }

  /** A quantifier in a later clause erases the name an earlier clause uses freely. */
  lemma LaterQuantifierErases(x: string, d: string)
    requires !IsKeyword(x) && !IsKeyword(d) && x != d
    ensures var clauses := [Name(x), Quantifier(x, Name(d), Name(x))];
      x in FreeInAny(clauses) && x !in WalkAll(clauses, {})
    ensures var clauses := [Quantifier(x, Name(d), Name(x)), Name(x)];
      x in FreeInAny(clauses) && x in WalkAll(clauses, {})
  {
    var q := Quantifier(x, Name(d), Name(x));
    assert [Name(x), q][1..] == [q] && [q][1..] == [] && [q, Name(x)][1..] == [Name(x)] && [Name(x)][1..] == [];
    assert Walk(Name(x), {}) == {x};
    assert WalkAll([Name(x), q], {}) == WalkAll([q], {x}) == Walk(q, {x});
    assert WalkAll([q, Name(x)], {}) == WalkAll([Name(x)], Walk(q, {})) == Walk(q, {}) + {x};
  }

  // ----- Sorted, once each -----

  /** Lexicographic order on code points. */
  predicate Before(a: string, b: string) {
    b != [] && (a == [] || a[0] < b[0] || (a[0] == b[0] && Before(a[1..], b[1..])))
  }

  lemma {:induction false} BeforeTransitive(a: string, b: string, c: string)
    requires Before(a, b) && Before(b, c)
    ensures Before(a, c)
  {
    if a != [] && a[0] == b[0] == c[0] { BeforeTransitive(a[1..], b[1..], c[1..]); }
  }

  lemma {:induction false} BeforeTotal(a: string, b: string)
    ensures a == b || Before(a, b) || Before(b, a)
  {
    if a != [] && b != [] && a[0] == b[0] {
      BeforeTotal(a[1..], b[1..]);
      assert a == [a[0]] + a[1..] && b == [b[0]] + b[1..];
    }
  }

  /** The first difference decides, and a proper prefix comes first. */
  lemma {:induction false} BeforeIff(a: string, b: string)
    ensures Before(a, b) <==> exists k: nat ::
      k < |b| && k <= |a| && a[..k] == b[..k] && (k == |a| || a[k] < b[k])
  {
    if Before(a, b) {
      if a == [] || a[0] < b[0] {
        assert a[..0] == b[..0];
      } else {
        BeforeIff(a[1..], b[1..]);
        var k: nat :| k < |b[1..]| && k <= |a[1..]| && a[1..][..k] == b[1..][..k] && (k == |a[1..]| || a[1..][k] < b[1..][k]);
        assert a[..k + 1] == [a[0]] + a[1..][..k] && b[..k + 1] == [b[0]] + b[1..][..k];
        assert a[..k + 1] == b[..k + 1];
      }
    }
    forall k: nat | k < |b| && k <= |a| && a[..k] == b[..k] && (k == |a| || a[k] < b[k]) ensures Before(a, b) {
      DiffersAt(a, b, k);
    }
  }

  lemma {:induction false} DiffersAt(a: string, b: string, k: nat)
    requires k < |b| && k <= |a| && a[..k] == b[..k] && (k == |a| || a[k] < b[k])
    ensures Before(a, b)
    decreases k
  {
    if k > 0 {
      assert a[0] == a[..k][0] && b[0] == b[..k][0];
      assert a[1..][..k - 1] == a[..k][1..] && b[1..][..k - 1] == b[..k][1..];
      DiffersAt(a[1..], b[1..], k - 1);
    }
  }

  ghost predicate Sorted(names: seq<string>) {
    forall i, j :: 0 <= i < j < |names| ==> Before(names[i], names[j])
  }

  function Elements(names: seq<string>): set<string> {
    set x | x in names
  }

  /** Inserts a new name at its place. */
  method Insert(names: seq<string>, x: string) returns (r: seq<string>)
    requires Sorted(names) && x !in names
    ensures Sorted(r) && Elements(r) == Elements(names) + {x} && |r| == |names| + 1
  {
    hide Before;
    var k := 0;
    while k < |names| && Before(names[k], x)
      invariant 0 <= k <= |names|
      invariant forall i :: 0 <= i < k ==> Before(names[i], x)
    {
      k := k + 1;
    }
    forall i | k <= i < |names| ensures Before(x, names[i]) {
      assert names[k] in names;
      BeforeTotal(x, names[k]);
      if k < i { BeforeTransitive(x, names[k], names[i]); }
    }
    r := names[..k] + [x] + names[k..];
    assert forall y :: y in r <==> y in names[..k] || y == x || y in names[k..];
    assert names == names[..k] + names[k..];
  }

  method FreeNames(clauses: seq<Term>) returns (names: set<string>)
    ensures names == WalkAll(clauses, {})
  {
    var free := new FreeIdents();
    for i := 0 to |clauses|
      invariant WalkAll(clauses, {}) == WalkAll(clauses[i..], free.idents)
    {
      assert clauses[i..][0] == clauses[i] && clauses[i..][1..] == clauses[i + 1..];
      free.Collect(clauses[i]);
    }
    assert clauses[|clauses|..] == [];
    names := free.idents;
  }

  method Sort(names: set<string>) returns (sorted: seq<string>)
    ensures Sorted(sorted) && Elements(sorted) == names
  {
    sorted := [];
    var rest := names;
    while rest != {}
      invariant Sorted(sorted) && rest <= names && Elements(sorted) == names - rest
      decreases |rest|
    {
      var x :| x in rest;
      assert x !in Elements(sorted);
      sorted := Insert(sorted, x);
      rest := rest - {x};
    }
  }

  /** The names of the parameters, in order. */
  function NamesOf(params: seq<(string, string)>): seq<string> {
    seq(|params|, i requires 0 <= i < |params| => params[i].0)
  }

  /** Every free name becomes an `i64` parameter. */
  method SynthesizeInputs(clauses: seq<Term>) returns (params: seq<(string, string)>)
    ensures Sorted(NamesOf(params)) && Elements(NamesOf(params)) == WalkAll(clauses, {})
    ensures forall i :: 0 <= i < |params| ==> params[i].1 == "i64"
  {
    var names := FreeNames(clauses);
    var sorted := Sort(names);
    params := [];
    for i := 0 to |sorted|
      invariant |params| == i
      invariant forall k :: 0 <= k < i ==> params[k] == (sorted[k], "i64")
    {
      params := params + [(sorted[i], "i64")];
    }
    assert NamesOf(params) == sorted;
  }

  /** A sorted list names each element once, so the parameters are the free names exactly. */
  lemma SortedIsDistinct(names: seq<string>)
    requires Sorted(names)
    ensures forall i, j :: 0 <= i < j < |names| ==> names[i] != names[j]
  {
    forall i, j | 0 <= i < j < |names| ensures names[i] != names[j] {
      NeverBeforeItself(names[i]);
    }
  }

  lemma {:induction false} NeverBeforeItself(a: string)
    ensures !Before(a, a)
  {
    if a != [] { NeverBeforeItself(a[1..]); }
  }
}
