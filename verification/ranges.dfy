/** Proptest inputs: bounds taken from requires clauses, merged into one range per parameter. */
module Ranges {
  import opened Ast
  import opened Numeric
  import opened RustSyntax
  import opened RustSemantics

  // ----- Bounds -----

  datatype Bound = Gte(v: int) | Gt(v: int) | Lte(v: int) | Lt(v: int) | NeqZero

  /** A comparison of a name with a literal that fits `i64`; `!=` only with 0. */
  function TryExtractBound(e: Expr): Option<(string, Bound)> {
    if !e.Binary? || !e.lhs.Ident? || !e.rhs.IntLit? then None else
    var x, n := e.lhs.name, e.rhs.n;
    if e.op.Neq? && n == 0 then Some((x, NeqZero))
    else if n > Max(I64) then None
    else
      match e.op
      case Gt => Some((x, Bound.Gt(n)))
      case Gte => Some((x, Bound.Gte(n)))
      case Lt => Some((x, Bound.Lt(n)))
      case Lte => Some((x, Bound.Lte(n)))
      case _ => None
  }

  predicate Satisfies(b: Bound, x: int) {
    match b
    case Gte(v) => x >= v
    case Gt(v) => x > v
    case Lte(v) => x <= v
    case Lt(v) => x < v
    case NeqZero => x != 0
  }

  /** A comparison whose literal fits `i64`, or `!= 0`. */
  predicate IsBound(e: Expr) {
    && e.Binary? && e.lhs.Ident? && e.rhs.IntLit?
    && (((e.op.Gt? || e.op.Gte? || e.op.Lt? || e.op.Lte?) && e.rhs.n < Pow2(63)) || (e.op.Neq? && e.rhs.n == 0))
  }

  /** Exactly these clauses become bounds, of the compared name, and with the meaning of the comparison. */
  lemma BoundIsExtractedIff(e: Expr)
    ensures TryExtractBound(e).Some? <==> IsBound(e)
    ensures IsBound(e) ==> TryExtractBound(e).value.0 == e.lhs.name
    ensures IsBound(e) ==> forall i :: Satisfies(TryExtractBound(e).value.1, i) <==> CompareOp(e.op, i, e.rhs.n)
  {
    hide Pow2;
    PowersOfTwo();
  }

  /** Bounds are stored in `i64`. */
  predicate InI64(b: Bound) {
    b.NeqZero? || InRange(I64, b.v)
  }

  function SaturatingAdd(v: int): int { if v + 1 > Max(I64) then Max(I64) else v + 1 }

  function SaturatingSub(v: int): int { if v - 1 < Min(I64) then Min(I64) else v - 1 }

  datatype Range = Range(lower: Option<int>, upper: Option<int>, neqZero: bool)

  const UNBOUNDED := Range(None, None, false)

  function Raise(lower: Option<int>, v: int): Option<int> {
    Some(if lower.Some? && lower.value > v then lower.value else v)
  }

  function Cap(upper: Option<int>, v: int): Option<int> {
    Some(if upper.Some? && upper.value < v then upper.value else v)
  }

  function Applied(r: Range, b: Bound): Range {
    match b
    case Gte(v) => r.(lower := Raise(r.lower, v))
    case Gt(v) => r.(lower := Raise(r.lower, SaturatingAdd(v)))
    case Lte(v) => r.(upper := Cap(r.upper, v))
    case Lt(v) => r.(upper := Cap(r.upper, SaturatingSub(v)))
    case NeqZero => r.(neqZero := true)
  }

  class ParamRange {
    var lower: Option<int>
    var upper: Option<int>
    var neqZero: bool

    constructor ()
      ensures State() == UNBOUNDED
    {
      lower, upper, neqZero := None, None, false;
    }

    function State(): Range
      reads this
    {
      Range(lower, upper, neqZero)
    }

    method Apply(b: Bound)
      modifies this
      ensures State() == Applied(old(State()), b)
    {
      match b {
        case Gte(v) => lower := Some(if lower.None? then v else if lower.value > v then lower.value else v);
        case Gt(v) =>
          var inclusive := SaturatingAdd(v);
          lower := Some(if lower.None? then inclusive else if lower.value > inclusive then lower.value else inclusive);
        case Lte(v) => upper := Some(if upper.None? then v else if upper.value < v then upper.value else v);
        case Lt(v) =>
          var inclusive := SaturatingSub(v);
          upper := Some(if upper.None? then inclusive else if upper.value < inclusive then upper.value else inclusive);
        case NeqZero => neqZero := true;
      }
    }
  }

  predicate Between(r: Range, x: int) {
    (r.lower.Some? ==> r.lower.value <= x) && (r.upper.Some? ==> x <= r.upper.value)
  }

  predicate Admits(r: Range, x: int) {
    Between(r, x) && (r.neqZero ==> x != 0)
  }

  /** The bound saturates, and the range still admits the value it should exclude. */
  predicate Saturates(r: Range, b: Bound) {
    || (b == Bound.Gt(Max(I64)) && Admits(r, Max(I64)))
    || (b == Bound.Lt(Min(I64)) && Admits(r, Min(I64)))
  }

  /** Applying a bound keeps exactly the values that satisfy it, unless it saturates. */
  lemma ApplyIsExactIff(r: Range, b: Bound)
    requires InI64(b)
    ensures (forall x :: InRange(I64, x) ==> (Admits(Applied(r, b), x) <==> Admits(r, x) && Satisfies(b, x)))
       <==> !Saturates(r, b)
  {
    if Saturates(r, b) {
      var x := b.v;
      assert Admits(Applied(r, b), x) && !Satisfies(b, x);
    }
  }

  /** The range after `apply` calls in the order of `bounds`. */
  function Merge(r: Range, bounds: seq<Bound>): Range
    decreases |bounds|
  {
    if bounds == [] then r else Merge(Applied(r, bounds[0]), bounds[1..])
  }

  lemma ApplyCommutes(r: Range, a: Bound, b: Bound)
    ensures Applied(Applied(r, a), b) == Applied(Applied(r, b), a)
  {
  }

  lemma {:induction false} MergeApplied(r: Range, bounds: seq<Bound>, b: Bound)
    ensures Merge(Applied(r, b), bounds) == Applied(Merge(r, bounds), b)
    decreases |bounds|
  {
    if bounds != [] {
      ApplyCommutes(r, b, bounds[0]);
      MergeApplied(Applied(r, bounds[0]), bounds[1..], b);
    }
  }

  lemma {:induction false} MergeAt(r: Range, bounds: seq<Bound>, i: nat)
    requires i < |bounds|
    ensures Merge(r, bounds) == Merge(Applied(r, bounds[i]), bounds[..i] + bounds[i + 1..])
    decreases i
  {
    if i == 0 {
      assert bounds[..0] + bounds[1..] == bounds[1..];
    } else {
      MergeAt(Applied(r, bounds[0]), bounds[1..], i - 1);
      var rest := bounds[..i] + bounds[i + 1..];
      assert rest[0] == bounds[0] && rest[1..] == bounds[1..][..i - 1] + bounds[1..][i..];
      ApplyCommutes(r, bounds[0], bounds[i]);
    }
  }

  /** The merged range does not depend on the order of the clauses. */
  lemma {:induction false} MergeIgnoresOrder(r: Range, a: seq<Bound>, b: seq<Bound>)
    requires multiset(a) == multiset(b)
    ensures Merge(r, a) == Merge(r, b)
    decreases |a|
  {
    if a == [] {
      assert |b| == |multiset(b)| == 0;
    } else {
      hide Merge, Applied;
      var i := FindEqual(a, b);
      MergeIgnoresOrder(Applied(r, a[0]), a[1..], b[..i] + b[i + 1..]);
      MergeAt(r, b, i);
      MergeAt(r, a, 0);
      assert a[..0] + a[1..] == a[1..];
    }
  }

  /** The first bound of `a` occurs in `b`; without it the two hold the same bounds. */
  lemma FindEqual(a: seq<Bound>, b: seq<Bound>) returns (i: nat)
    requires a != [] && multiset(a) == multiset(b)
    ensures i < |b| && b[i] == a[0] && multiset(a[1..]) == multiset(b[..i] + b[i + 1..])
  {
    assert a[0] in multiset(b);
    i :| 0 <= i < |b| && b[i] == a[0];
    var b' := b[..i] + b[i + 1..];
    assert multiset(b) == multiset(b') + multiset{b[i]} by { assert b == b[..i] + [b[i]] + b[i + 1..]; }
    assert multiset(a) == multiset(a[1..]) + multiset{a[0]} by { assert a == [a[0]] + a[1..]; }
    assert multiset(a[1..]) == multiset(a) - multiset{a[0]};
    assert multiset(b') == multiset(b) - multiset{b[i]};
  }

  // ----- Strategies -----

  /** Smallest and largest value of a numeric Rust type. */
  function Domain(ty: string): Option<(int, int)> {
    if ty == "u8" then Some((0, 0xFF))
    else if ty == "u16" then Some((0, 0xFFFF))
    else if ty == "u32" then Some((0, 0xFFFF_FFFF))
    else if ty == "u64" || ty == "usize" then Some((0, Max(U64)))
    else if ty == "i8" then Some((-0x80, 0x7F))
    else if ty == "i16" then Some((-0x8000, 0x7FFF))
    else if ty == "i32" then Some((Min(I32), Max(I32)))
    else if ty == "i64" || ty == "isize" then Some((Min(I64), Max(I64)))
    else None
  }

  /** An inclusive interval of the type, or any value of it, possibly without zero. */
  datatype Strategy = Interval(lo: int, hi: int, neqZero: bool) | AnyOf(min: int, max: int, neqZero: bool)

  function Clamp(v: int, min: int, max: int): int
    requires min <= max
  {
    if v < min then min else if v > max then max else v
  }

  function DomainOf(ty: string): (d: (int, int))
    ensures d.0 < d.1
  {
    if Domain(ty).Some? then Domain(ty).value else (Min(I64), Max(I64))
  }

  function ToStrategyFor(r: Range, ty: string): Strategy {
    var (min, max) := DomainOf(ty);
    var lo := if r.lower.Some? then Some(Clamp(r.lower.value, min, max)) else None;
    var hi := if r.upper.Some? then Some(Clamp(r.upper.value, min, max)) else None;
    match (lo, hi)
    case (Some(lo), Some(hi)) => if lo > hi then AnyOf(min, max, r.neqZero) else Interval(lo, hi, r.neqZero)
    case (Some(lo), None) => Interval(lo, max, r.neqZero)
    case (None, Some(hi)) => Interval(min, hi, r.neqZero)
    case (None, None) => AnyOf(min, max, r.neqZero)
  }

  /** The values a strategy can produce. */
  predicate Produces(s: Strategy, x: int) {
    (s.neqZero ==> x != 0) &&
    match s
    case Interval(lo, hi, _) => lo <= x <= hi
    case AnyOf(min, max, _) => min <= x <= max
  }

  predicate InDomain(ty: string, x: int) {
    DomainOf(ty).0 <= x <= DomainOf(ty).1
  }

  /** The bits of the size in an integer type's name. */
  function Bits(size: string): Option<nat> {
    if size == "8" then Some(8) else if size == "16" then Some(16) else if size == "32" then Some(32)
    else if size == "64" || size == "size" then Some(64) else None
  }

  predicate IsIntegerType(ty: string) {
    ty != [] && (ty[0] == 'i' || ty[0] == 'u') && Bits(ty[1..]).Some?
  }

  /** `x` is a value of the Rust type by the sign and the size in its name; a type that is none counts as `i64`. */
  predicate OfType(ty: string, x: int) {
    if IsIntegerType(ty) && Bits(ty[1..]).value > 0 then InTwosComplement(ty[0] == 'i', Bits(ty[1..]).value, x)
    else InTwosComplement(true, 64, x)
  }

  /** The domain of every type is its two's-complement range. */
  lemma DomainIsMachineRange(ty: string, x: int)
    ensures Domain(ty).Some? <==> IsIntegerType(ty)
    ensures InDomain(ty, x) <==> OfType(ty, x)
  {
    hide Pow2;
    PowersOfTwo();
    SpelledTypes(ty);
  }

  lemma SpelledTypes(ty: string)
    ensures IsIntegerType(ty) <==>
      || ty == "u8" || ty == "u16" || ty == "u32" || ty == "u64" || ty == "usize"
      || ty == "i8" || ty == "i16" || ty == "i32" || ty == "i64" || ty == "isize"
    ensures IsIntegerType(ty) ==> Bits(ty[1..]).value > 0
  {
    if ty != [] { assert ty == [ty[0]] + ty[1..]; }
  }

  /** Some value of the type lies between the bounds. */
  ghost predicate Satisfiable(r: Range, ty: string) {
    exists x :: OfType(ty, x) && Between(r, x)
  }

  /** Satisfiable bounds: the strategy produces exactly the values of the type that meet them all. */
  lemma StrategyIsExact(r: Range, ty: string)
    requires Satisfiable(r, ty)
    ensures forall x :: Produces(ToStrategyFor(r, ty), x) <==> OfType(ty, x) && Admits(r, x)
  {
    hide OfType, DomainOf;
    forall x ensures InDomain(ty, x) <==> OfType(ty, x) { DomainIsMachineRange(ty, x); }
    var y :| OfType(ty, y) && Between(r, y);
    assert InDomain(ty, y);
  }

  /**
   * A strategy is exact exactly when its bounds can be met in the type: otherwise inputs
   * outside them are produced. The one exception is a clamped `0..=0` without zero, which
   * produces nothing.
   */
  lemma StrategyIsExactIff(r: Range, ty: string)
    ensures (forall x :: Produces(ToStrategyFor(r, ty), x) <==> OfType(ty, x) && Admits(r, x))
       <==> Satisfiable(r, ty) || ToStrategyFor(r, ty) == Interval(0, 0, true)
  {
    hide OfType, DomainOf;
    forall x ensures InDomain(ty, x) <==> OfType(ty, x) { DomainIsMachineRange(ty, x); }
    var s := ToStrategyFor(r, ty);
    if Satisfiable(r, ty) {
      StrategyIsExact(r, ty);
    } else if s != Interval(0, 0, true) {
      var lo, hi := if s.Interval? then s.lo else s.min, if s.Interval? then s.hi else s.max;
      var x := if lo != 0 then lo else hi;
      assert Produces(s, x) || Produces(s, lo);
      assert InDomain(ty, lo) && InDomain(ty, x);
      assert !(OfType(ty, lo) && Between(r, lo)) && !(OfType(ty, x) && Between(r, x));
    }
  }

  /** Both bounds leave values of the type out, on opposite sides, and exclude each other. */
  ghost predicate Crossed(r: Range, ty: string) {
    && r.lower.Some? && r.upper.Some? && r.lower.value > r.upper.value
    && (exists y :: OfType(ty, y) && y < r.lower.value) && (exists y :: OfType(ty, y) && r.upper.value < y)
  }

  /** What bounds that cannot be met produce: any value of the type if they cross, else the one nearest to them. */
  lemma UnmetBoundsProduce(r: Range, ty: string, x: int)
    requires !Satisfiable(r, ty)
    ensures Produces(ToStrategyFor(r, ty), x) <==>
      && OfType(ty, x) && (r.neqZero ==> x != 0)
      && (Crossed(r, ty) || forall y | OfType(ty, y) :: if r.lower.Some? && y < r.lower.value then y <= x else x <= y)
  {
    hide OfType, DomainOf;
    forall y ensures InDomain(ty, y) <==> OfType(ty, y) { DomainIsMachineRange(ty, y); }
    var (min, max) := DomainOf(ty);
    assert OfType(ty, min) && OfType(ty, max);
    assert !Between(r, min) && !Between(r, max);
    if r.lower.Some? && InDomain(ty, r.lower.value) { assert !Between(r, r.lower.value); }
    if r.upper.Some? && InDomain(ty, r.upper.value) { assert !Between(r, r.upper.value); }
    var s := ToStrategyFor(r, ty);
    if Crossed(r, ty) {
      assert s == AnyOf(min, max, r.neqZero);
    } else if r.lower.Some? && r.lower.value > max {
      assert s == Interval(max, max, r.neqZero);
    } else {
      assert s == Interval(min, min, r.neqZero);
    }
  }

  // ----- Splitting the requires clauses -----

  type Ranges = map<string, Range>

  function RangeOf(ranges: Ranges, x: string): Range {
    if x in ranges then ranges[x] else UNBOUNDED
  }

  datatype Split = Split(ranges: Ranges, residual: seq<Expr>)

  /** A simple bound goes to its parameter's range, any other clause becomes a `prop_assume!`. */
  function SplitOne(s: Split, e: Expr): Split {
    var b := TryExtractBound(e);
    if b.Some? then s.(ranges := s.ranges[b.value.0 := Applied(RangeOf(s.ranges, b.value.0), b.value.1)])
    else s.(residual := s.residual + [e])
  }

  function SplitAll(clauses: seq<Expr>): Split {
    if clauses == [] then Split(map[], [])
    else SplitOne(SplitAll(clauses[..|clauses| - 1]), clauses[|clauses| - 1])
  }

  method SplitRequires(clauses: seq<Expr>) returns (ranges: Ranges, residual: seq<Expr>)
    ensures Split(ranges, residual) == SplitAll(clauses)
  {
    ranges, residual := map[], [];
    for i := 0 to |clauses|
      invariant Split(ranges, residual) == SplitAll(clauses[..i])
    {
      assert clauses[..i + 1][..i] == clauses[..i];
      var b := TryExtractBound(clauses[i]);
      if b.Some? {
        var (x, bound) := b.value;
        var range := new ParamRange();
        if x in ranges { range.lower, range.upper, range.neqZero := ranges[x].lower, ranges[x].upper, ranges[x].neqZero; }
        range.Apply(bound);
        ranges := ranges[x := range.State()];
      } else {
        residual := residual + [clauses[i]];
      }
    }
    assert clauses[..|clauses|] == clauses;
  }

  /** The inputs of one test case. */
  type Inputs = map<string, int>

  /** A clause holds of the inputs; `other` decides the clauses that are not simple bounds. */
  predicate Meets(e: Expr, inputs: Inputs, other: Expr -> bool) {
    var b := TryExtractBound(e);
    if b.Some? then b.value.0 in inputs && Satisfies(b.value.1, inputs[b.value.0]) else other(e)
  }

  /** The value of every bounded parameter comes from its strategy, and no `prop_assume!` rejects. */
  predicate Reaches(s: Split, types: map<string, string>, inputs: Inputs, other: Expr -> bool) {
    && (forall x | x in s.ranges :: x in types && x in inputs && Produces(ToStrategyFor(s.ranges[x], types[x]), inputs[x]))
    && (forall i :: 0 <= i < |s.residual| ==> other(s.residual[i]))
  }

  /** The admitted values are what the clauses ask of each bounded parameter. */
  predicate Accepts(s: Split, inputs: Inputs, other: Expr -> bool) {
    && (forall x | x in s.ranges :: x in inputs && Admits(s.ranges[x], inputs[x]))
    && (forall i :: 0 <= i < |s.residual| ==> other(s.residual[i]))
  }

  predicate SaturatesNever(clauses: seq<Expr>) {
    forall i :: 0 <= i < |clauses| && TryExtractBound(clauses[i]).Some? ==>
      TryExtractBound(clauses[i]).value.1 != Bound.Gt(Max(I64))
  }

  lemma SplitOneAccepts(s: Split, e: Expr, inputs: Inputs, other: Expr -> bool)
    requires TryExtractBound(e).Some? ==> TryExtractBound(e).value.1 != Bound.Gt(Max(I64))
    ensures Accepts(SplitOne(s, e), inputs, other) <==> Accepts(s, inputs, other) && Meets(e, inputs, other)
  {
    var s' := SplitOne(s, e);
    var b := TryExtractBound(e);
    if b.Some? {
      var (x, bound) := b.value;
      if x in inputs {
        assert Admits(Applied(RangeOf(s.ranges, x), bound), inputs[x])
          <==> Admits(RangeOf(s.ranges, x), inputs[x]) && Satisfies(bound, inputs[x]);
        assert x !in s.ranges ==> Admits(RangeOf(s.ranges, x), inputs[x]);
      }
      assert s'.residual == s.residual;
      if Accepts(s', inputs, other) {
        assert x in s'.ranges;
        forall y | y in s.ranges ensures y in inputs && Admits(s.ranges[y], inputs[y]) {
          assert y in s'.ranges;
        }
      }
    } else {
      assert s'.residual[|s.residual|] == e;
      if Accepts(s', inputs, other) {
        assert other(s'.residual[|s.residual|]);
        forall i | 0 <= i < |s.residual| ensures other(s.residual[i]) { assert s'.residual[i] == s.residual[i]; }
      }
    }
  }

  lemma {:induction false} SplitAccepts(clauses: seq<Expr>, inputs: Inputs, other: Expr -> bool)
    requires SaturatesNever(clauses)
    ensures Accepts(SplitAll(clauses), inputs, other)
       <==> forall i :: 0 <= i < |clauses| ==> Meets(clauses[i], inputs, other)
  {
    if clauses != [] {
      var n := |clauses| - 1;
      assert forall i :: 0 <= i < n ==> clauses[..n][i] == clauses[i];
      SplitAccepts(clauses[..n], inputs, other);
      SplitOneAccepts(SplitAll(clauses[..n]), clauses[n], inputs, other);
    }
  }

  /**
   * With bounds on declared inputs, satisfiable in their types, and none saturating: a
   * tuple of values of those types reaches `check` exactly when it meets every requires.
   */
  lemma InputsMatchRequires(clauses: seq<Expr>, types: map<string, string>, inputs: Inputs, other: Expr -> bool)
    requires SaturatesNever(clauses)
    requires var s := SplitAll(clauses);
      forall x | x in s.ranges :: x in types && x in inputs && Satisfiable(s.ranges[x], types[x])
    ensures var s := SplitAll(clauses);
      Reaches(s, types, inputs, other)
      <==> (forall i :: 0 <= i < |clauses| ==> Meets(clauses[i], inputs, other))
           && forall x | x in s.ranges :: OfType(types[x], inputs[x])
  {
    var s := SplitAll(clauses);
    SplitAccepts(clauses, inputs, other);
    forall x | x in s.ranges
      ensures Produces(ToStrategyFor(s.ranges[x], types[x]), inputs[x])
        <==> OfType(types[x], inputs[x]) && Admits(s.ranges[x], inputs[x])
    {
      StrategyIsExact(s.ranges[x], types[x]);
    }
  }
}
