/** Services with declared states: the generated impl blocks and the calls they admit. */
module Typestate {
  import opened Ast

  datatype Item =
    | States(names: seq<string>)
    | Operation(name: string, clauses: seq<Clause>)
    | Query(name: string, clauses: seq<Clause>)

  /** `self.state == S` */
  function StateComparison(body: Expr): Option<string> {
    if body.Binary? && body.op.Eq? && body.lhs == Field(Ident("self"), "state") && body.rhs.Ident?
    then Some(body.rhs.name) else None
  }

  /** The states of the first `states` item. */
  function ServiceStates(items: seq<Item>): seq<string> {
    if items == [] then [] else if items[0].States? then items[0].names else ServiceStates(items[1..])
  }

  /** The guard: the first requires clause that compares the state. */
  function PreState(clauses: seq<Clause>): Option<string> {
    if clauses == [] then None
    else if clauses[0].kind.Requires? && StateComparison(clauses[0].body).Some? then StateComparison(clauses[0].body)
    else PreState(clauses[1..])
  }

  /** The transition: the last ensures clause that compares the state. */
  function PostState(clauses: seq<Clause>): Option<string> {
    if clauses == [] then None
    else
      var last := clauses[|clauses| - 1];
      if last.kind.Ensures? && StateComparison(last.body).Some? then StateComparison(last.body)
      else PostState(clauses[..|clauses| - 1])
  }

  // ----- Generated code -----

  datatype SelfParam = ByValue | ByMutRef | ByRef

  /** A method; with `ret` it consumes the service and returns it in that state. */
  datatype Fn = Fn(name: string, self: SelfParam, ret: Option<string>)

  /** `impl Service<target>`, or `impl<S> Service<S>` when there is no target. */
  datatype Impl = Impl(target: Option<string>, hasNew: bool, fns: seq<Fn>)

  function FnOf(item: Item): Fn
    requires !item.States?
  {
    var post := PostState(item.clauses);
    Fn(item.name, if post.Some? then ByValue else if item.Operation? then ByMutRef else ByRef, post)
  }

  /** An ensures clause names a state that the service moves to. */
  ghost predicate HasTransition(clauses: seq<Clause>) {
    exists c :: c in clauses && c.kind.Ensures? && StateComparison(c.body).Some?
  }

  /** Clause `i` is the last ensures clause that names a state. */
  ghost predicate LastTarget(clauses: seq<Clause>, i: nat) {
    && i < |clauses| && clauses[i].kind.Ensures? && StateComparison(clauses[i].body).Some?
    && forall j :: i < j < |clauses| && clauses[j].kind.Ensures? ==> StateComparison(clauses[j].body).None?
  }

  /** Clause `i` is the first requires clause that names a state. */
  ghost predicate FirstGuard(clauses: seq<Clause>, i: nat) {
    && i < |clauses| && clauses[i].kind.Requires? && StateComparison(clauses[i].body).Some?
    && forall j :: 0 <= j < i && clauses[j].kind.Requires? ==> StateComparison(clauses[j].body).None?
  }

  /** The receiver and the return type, read off the clauses. */
  ghost predicate ReceiverFits(item: Item, f: Fn)
    requires !item.States?
  {
    && f.name == item.name
    && (f.self.ByValue? <==> HasTransition(item.clauses))
    && (!f.self.ByValue? ==> f.self == if item.Operation? then ByMutRef else ByRef)
    && (f.ret.Some? <==> HasTransition(item.clauses))
    && forall i: nat :: LastTarget(item.clauses, i) ==> f.ret == StateComparison(item.clauses[i].body)
  }

  /** A comparison is `self.state == S` in this order, with a name on the right. */
  lemma ComparisonIff(e: Expr, s: string)
    ensures StateComparison(e) == Some(s) <==> e == Binary(Eq, Field(Ident("self"), "state"), Ident(s))
  {
  }

  /** The first `states` item gives the states, and without one there are none. */
  lemma {:induction false} StatesAreFirst(items: seq<Item>, k: nat)
    requires k <= |items| && forall i :: 0 <= i < k ==> !items[i].States?
    ensures k == |items| ==> ServiceStates(items) == []
    ensures k < |items| && items[k].States? ==> ServiceStates(items) == items[k].names
    decreases k
  {
    if k > 0 {
      assert forall i :: 0 <= i < k - 1 ==> items[1..][i] == items[i + 1];
      StatesAreFirst(items[1..], k - 1);
    }
  }

  /** The guard is that of the first requires clause that names a state. */
  lemma {:induction false} GuardIsFirst(clauses: seq<Clause>, i: nat)
    requires FirstGuard(clauses, i)
    ensures PreState(clauses) == StateComparison(clauses[i].body)
    decreases i
  {
    hide StateComparison;
    if i > 0 {
      assert clauses[1..][i - 1] == clauses[i];
      assert forall j :: 0 <= j < i - 1 ==> clauses[1..][j] == clauses[j + 1];
      GuardIsFirst(clauses[1..], i - 1);
    }
  }

  /** The target is that of the last ensures clause that names a state. */
  lemma {:induction false} TargetIsLast(clauses: seq<Clause>, i: nat)
    requires LastTarget(clauses, i)
    ensures PostState(clauses) == StateComparison(clauses[i].body)
    decreases |clauses|
  {
    hide StateComparison;
    var n := |clauses| - 1;
    if i < n {
      assert clauses[..n][i] == clauses[i];
      assert forall j :: 0 <= j < n ==> clauses[..n][j] == clauses[j];
      TargetIsLast(clauses[..n], i);
    }
  }

  /** A method takes the service itself exactly when it has a transition, and returns it in the last target's state. */
  lemma ReceiverIs(item: Item)
    requires !item.States?
    ensures ReceiverFits(item, FnOf(item))
  {
    hide StateComparison, PostState;
    PostStateIsEnsured(item.clauses);
    forall i: nat | LastTarget(item.clauses, i) ensures FnOf(item).ret == StateComparison(item.clauses[i].body) {
      TargetIsLast(item.clauses, i);
    }
  }

  method BuildMethod(item: Item) returns (f: Fn)
    requires !item.States?
    ensures f == FnOf(item) && ReceiverFits(item, f)
  {
    var post: Option<string> := None;
    for i := 0 to |item.clauses|
      invariant post == PostState(item.clauses[..i])
    {
      assert item.clauses[..i + 1][..i] == item.clauses[..i];
      var clause := item.clauses[i];
      if clause.kind.Ensures? {
        var state := StateComparison(clause.body);
        if state.Some? { post := state; }
      }
    }
    assert item.clauses[..|item.clauses|] == item.clauses;
    f := Fn(item.name, if post.Some? then ByValue else if item.Operation? then ByMutRef else ByRef, post);
    ReceiverIs(item);
  }

  /** The group a method is pushed to: its guard's, or the generic one if the guard is no declared state. */
  function Home(item: Item, states: seq<string>): Option<string>
    requires !item.States?
  {
    var pre := PreState(item.clauses);
    if pre.Some? && pre.value in states then pre else None
  }

  function Members(items: seq<Item>, key: Option<string>, states: seq<string>): (r: seq<Item>)
    ensures forall i :: 0 <= i < |r| ==> !r[i].States?
  {
    if items == [] then []
    else
      var last := items[|items| - 1];
      Members(items[..|items| - 1], key, states) + if !last.States? && Home(last, states) == key then [last] else []
  }

  function Keys(states: seq<string>): (keys: seq<Option<string>>)
    ensures |keys| == |states| + 1
  {
    seq(|states| + 1, i requires 0 <= i <= |states| => if i < |states| then Some(states[i]) else None)
  }

  datatype Group = Group(key: Option<string>, methods: seq<Item>)

  ghost predicate Grouped(groups: seq<Group>, items: seq<Item>, states: seq<string>) {
    && |groups| == |states| + 1
    && forall k :: 0 <= k < |groups| ==>
         groups[k].key == Keys(states)[k] && groups[k].methods == Members(items, groups[k].key, states)
  }

  predicate Distinct(names: seq<string>) {
    forall i, j :: 0 <= i < j < |names| ==> names[i] != names[j]
  }

  /** Pushes every method to the first group with its key, else to the generic group. */
  method GroupMethods(items: seq<Item>, states: seq<string>) returns (groups: seq<Group>)
    requires Distinct(states)
    ensures Grouped(groups, items, states)
  {
    groups := seq(|states| + 1, i requires 0 <= i <= |states| => Group(Keys(states)[i], []));
    for i := 0 to |items|
      invariant Grouped(groups, items[..i], states)
    {
      ghost var before := groups;
      var item := items[i];
      assert items[..i + 1][..i] == items[..i];
      if !item.States? {
        var pre := PreState(item.clauses);
        var k := 0;
        while k < |groups| && groups[k].key != pre
          invariant 0 <= k <= |groups|
          invariant forall j :: 0 <= j < k ==> groups[j].key != pre
        {
          k := k + 1;
        }
        if k == |groups| {
          k := |states|;
          assert groups[|states|].key == None;
          assert pre.value !in states by {
            forall j | 0 <= j < |states| ensures states[j] != pre.value { assert groups[j].key == Some(states[j]); }
          }
        }
        assert groups[k].key == Home(item, states) by {
          if k < |states| { assert groups[k].key == Some(states[k]); }
        }
        assert forall j :: 0 <= j < |groups| && j != k ==> groups[j].key != groups[k].key;
        groups := groups[k := Group(groups[k].key, groups[k].methods + [item])];
      }
    }
    assert items[..|items|] == items;
  }

  function Fns(methods: seq<Item>): seq<Fn>
    requires forall i :: 0 <= i < |methods| ==> !methods[i].States?
  {
    seq(|methods|, i requires 0 <= i < |methods| => FnOf(methods[i]))
  }

  /** The impl blocks: empty groups are skipped, except the initial state's, which holds `new`. */
  function Impls(items: seq<Item>, states: seq<string>, keys: seq<Option<string>>): seq<Impl> {
    if keys == [] then []
    else ImplFor(items, states, keys[0]) + Impls(items, states, keys[1..])
  }

  method BuildMethods(methods: seq<Item>) returns (fns: seq<Fn>)
    requires forall i :: 0 <= i < |methods| ==> !methods[i].States?
    ensures fns == Fns(methods)
  {
    fns := [];
    for i := 0 to |methods|
      invariant |fns| == i
      invariant forall k :: 0 <= k < i ==> fns[k] == FnOf(methods[k])
    {
      var f := BuildMethod(methods[i]);
      fns := fns + [f];
    }
  }

  /** The block or blocks for one group. */
  function ImplFor(items: seq<Item>, states: seq<string>, key: Option<string>): seq<Impl> {
    var methods := Members(items, key, states);
    var isInitial := states != [] && key == Some(states[0]);
    if methods == [] && !isInitial then [] else [Impl(key, isInitial, Fns(methods))]
  }

  method GenerateTypestate(items: seq<Item>) returns (impls: seq<Impl>)
    requires Distinct(ServiceStates(items))
    ensures impls == Impls(items, ServiceStates(items), Keys(ServiceStates(items)))
  {
    hide Members, FnOf, Fns, Impls, Keys, ServiceStates;
    var states := ServiceStates(items);
    var groups := GroupMethods(items, states);
    ghost var keys := Keys(states);
    ghost var all := Impls(items, states, keys);
    assert keys[0..] == keys;
    impls := [];
    for k := 0 to |groups|
      invariant impls + Impls(items, states, keys[k..]) == all
    {
      var methods := groups[k].methods;
      var isInitial := states != [] && groups[k].key == Some(states[0]);
      ghost var before := impls;
      PushImpls(before, items, states, keys, k);
      if methods != [] || isInitial {
        var fns := BuildMethods(methods);
        impls := impls + [Impl(groups[k].key, isInitial, fns)];
      }
      assert impls == before + ImplFor(items, states, keys[k]);
    }
    NoKeys(items, states, keys[|groups|..]);
  }

  lemma PushImpls(before: seq<Impl>, items: seq<Item>, states: seq<string>, keys: seq<Option<string>>, k: nat)
    requires k < |keys|
    ensures before + Impls(items, states, keys[k..])
         == before + ImplFor(items, states, keys[k]) + Impls(items, states, keys[k + 1..])
  {
    hide ImplFor;
    assert keys[k..][0] == keys[k] && keys[k..][1..] == keys[k + 1..];
    var rest := Impls(items, states, keys[k + 1..]);
    assert before + (ImplFor(items, states, keys[k]) + rest) == before + ImplFor(items, states, keys[k]) + rest;
  }

  lemma NoKeys(items: seq<Item>, states: seq<string>, keys: seq<Option<string>>)
    requires keys == []
    ensures Impls(items, states, keys) == []
  {
  }

  // ----- Calls that type-check, and runs of the declared machine -----

  /** On a `Service<S>` the methods of `impl Service<S>` and of `impl<S> Service<S>` are in scope. */
  ghost predicate InScope(impls: seq<Impl>, state: string, f: Fn) {
    exists i :: 0 <= i < |impls| && (impls[i].target == None || impls[i].target == Some(state)) && f in impls[i].fns
  }

  function After(f: Fn, state: string): string {
    if f.ret.Some? then f.ret.value else state
  }

  /** Calling `name` on a `Service<s>` type-checks and leaves a `Service<t>`. */
  ghost predicate CallTypes(impls: seq<Impl>, s: string, name: string, t: string) {
    exists f :: InScope(impls, s, f) && f.name == name && t == After(f, s)
  }

  ghost predicate CallsType(impls: seq<Impl>, s: string, calls: seq<string>, t: string)
    decreases |calls|
  {
    if calls == [] then s == t
    else exists u :: CallTypes(impls, s, calls[0], u) && CallsType(impls, u, calls[1..], t)
  }

  // ----- The declared machine -----

  datatype Truth = True | False | Unknown

  function Negate(a: Truth): Truth {
    match a case True => False case False => True case Unknown => Unknown
  }

  function Both(a: Truth, b: Truth): Truth {
    if a.False? || b.False? then False else if a.True? && b.True? then True else Unknown
  }

  function Either(a: Truth, b: Truth): Truth {
    Negate(Both(Negate(a), Negate(b)))
  }

  /** The state that `l == r` compares with, written either way round. */
  function ComparedState(l: Expr, r: Expr): Option<string> {
    if l == Field(Ident("self"), "state") && r.Ident? then Some(r.name)
    else if r == Field(Ident("self"), "state") && l.Ident? then Some(l.name)
    else None
  }

  /** What a clause says of the current state alone, whatever the data. */
  function StateTruth(e: Expr, state: string): Truth {
    match e
    case Binary(op, l, r) =>
      if op.And? then Both(StateTruth(l, state), StateTruth(r, state))
      else if op.Or? then Either(StateTruth(l, state), StateTruth(r, state))
      else if op.Implies? then Either(Negate(StateTruth(l, state)), StateTruth(r, state))
      else if (op.Eq? || op.Neq?) && ComparedState(l, r).Some? then
        if (ComparedState(l, r).value == state) == op.Eq? then True else False
      else Unknown
    case Unary(uop, inner) => if uop.Not? then Negate(StateTruth(inner, state)) else Unknown
    case _ => Unknown
  }

  /** The clause compares the current state. */
  predicate SpeaksOfState(e: Expr) {
    match e
    case Binary(op, l, r) =>
      if op.And? || op.Or? || op.Implies? then SpeaksOfState(l) || SpeaksOfState(r)
      else (op.Eq? || op.Neq?) && ComparedState(l, r).Some?
    case Unary(uop, inner) => uop.Not? && SpeaksOfState(inner)
    case _ => false
  }

  /** No requires clause is false of the state. */
  predicate Admits(clauses: seq<Clause>, state: string) {
    forall c | c in clauses && c.kind.Requires? :: StateTruth(c.body, state) != False
  }

  /** No ensures clause is false of the new state; if none speaks of the state, it stays. */
  predicate Moves(clauses: seq<Clause>, from: string, to: string) {
    && (forall c | c in clauses && c.kind.Ensures? :: StateTruth(c.body, to) != False)
    && ((exists c :: c in clauses && c.kind.Ensures? && SpeaksOfState(c.body)) || to == from)
  }

  /** A step between declared states: all requires clauses allow the old one, all ensures the new one. */
  ghost predicate MachineStep(items: seq<Item>, s: string, name: string, t: string) {
    && s in ServiceStates(items) && t in ServiceStates(items)
    && exists item :: item in items && !item.States? && item.name == name && Admits(item.clauses, s) && Moves(item.clauses, s, t)
  }

  ghost predicate MachineRun(items: seq<Item>, s: string, calls: seq<string>, t: string)
    decreases |calls|
  {
    if calls == [] then s == t
    else exists u :: MachineStep(items, s, calls[0], u) && MachineRun(items, u, calls[1..], t)
  }

  // ----- What the impl blocks hold -----

  lemma {:induction false} MembersAre(items: seq<Item>, key: Option<string>, states: seq<string>, item: Item)
    ensures item in Members(items, key, states) <==> item in items && !item.States? && Home(item, states) == key
  {
    if items != [] {
      MembersAre(items[..|items| - 1], key, states, item);
      assert items == items[..|items| - 1] + [items[|items| - 1]];
    }
  }

  ghost predicate InImpl(impls: seq<Impl>, key: Option<string>, f: Fn) {
    exists i :: 0 <= i < |impls| && impls[i].target == key && f in impls[i].fns
  }

  lemma {:induction false} ImplsHold(items: seq<Item>, states: seq<string>, keys: seq<Option<string>>, key: Option<string>, f: Fn)
    ensures InImpl(Impls(items, states, keys), key, f)
       <==> key in keys && exists item :: item in Members(items, key, states) && !item.States? && f == FnOf(item)
  {
    hide FnOf;
    if keys != [] {
      ImplsHold(items, states, keys[1..], key, f);
      var methods := Members(items, keys[0], states);
      var rest := Impls(items, states, keys[1..]);
      var first := ImplFor(items, states, keys[0]);
      assert keys == [keys[0]] + keys[1..];
      FnsHold(methods, f);
      InImplConcat(first, rest, key, f);
      if first != [] { assert first[0].target == keys[0] && first[0].fns == Fns(methods); }
      assert InImpl(first, key, f) <==> key == keys[0] && f in Fns(methods);
    }
  }

  lemma FnsHold(methods: seq<Item>, f: Fn)
    requires forall i :: 0 <= i < |methods| ==> !methods[i].States?
    ensures f in Fns(methods) <==> exists item :: item in methods && f == FnOf(item)
  {
    forall item | item in methods && f == FnOf(item) ensures f in Fns(methods) {
      var i :| 0 <= i < |methods| && methods[i] == item;
      assert Fns(methods)[i] == f;
    }
  }

  lemma InImplConcat(a: seq<Impl>, b: seq<Impl>, key: Option<string>, f: Fn)
    ensures InImpl(a + b, key, f) <==> InImpl(a, key, f) || InImpl(b, key, f)
  {
    if InImpl(a, key, f) {
      var i :| 0 <= i < |a| && a[i].target == key && f in a[i].fns;
      assert (a + b)[i] == a[i];
    }
    if InImpl(b, key, f) {
      var i :| 0 <= i < |b| && b[i].target == key && f in b[i].fns;
      assert (a + b)[|a| + i] == b[i];
    }
  }

  // ----- Bisimulation -----

  /** `new` is defined for the first declared state and for no other. */
  lemma {:induction false} NewIsInitial(items: seq<Item>, states: seq<string>, keys: seq<Option<string>>)
    requires states != []
    ensures forall i :: 0 <= i < |Impls(items, states, keys)| ==>
      (Impls(items, states, keys)[i].hasNew <==> Impls(items, states, keys)[i].target == Some(states[0]))
    ensures Some(states[0]) in keys ==> exists i :: 0 <= i < |Impls(items, states, keys)| && Impls(items, states, keys)[i].hasNew
  {
    hide Members, Fns;
    if keys != [] {
      NewIsInitial(items, states, keys[1..]);
      var first, rest := ImplFor(items, states, keys[0]), Impls(items, states, keys[1..]);
      var all: seq<Impl> := first + rest;
      assert all == Impls(items, states, keys);
      forall i | 0 <= i < |all| ensures all[i].hasNew <==> all[i].target == Some(states[0]) {
        if i >= |first| { assert all[i] == rest[i - |first|]; }
      }
      if keys[0] == Some(states[0]) {
        assert all[0] == first[0] && all[0].hasNew;
      } else if Some(states[0]) in keys {
        var i :| 0 <= i < |rest| && rest[i].hasNew;
        assert all[|first| + i].hasNew;
      }
    }
  }

  /** The blocks follow the keys, and only the constructor's block may be without methods. */
  lemma {:induction false} BlocksInOrder(items: seq<Item>, states: seq<string>, keys: seq<Option<string>>)
    ensures OrderedBlocks(Impls(items, states, keys), keys)
  {
    hide ImplFor;
    if keys != [] {
      BlocksInOrder(items, states, keys[1..]);
      var first, rest := ImplFor(items, states, keys[0]), Impls(items, states, keys[1..]);
      OneBlock(items, states, keys[0]);
      if first != [] { BlockInFront(first[0], rest, keys); } else { BlocksStay(rest, keys); }
      assert Impls(items, states, keys) == first + rest;
      assert first == [] ==> first + rest == rest;
      assert first != [] ==> first == [first[0]];
    }
  }

  ghost predicate OrderedBlocks(impls: seq<Impl>, keys: seq<Option<string>>) {
    && (forall i :: 0 <= i < |impls| ==> impls[i].target in keys && (impls[i].fns != [] || impls[i].hasNew))
    && forall i, j :: 0 <= i < j < |impls| ==> InOrder(keys, impls[i].target, impls[j].target)
  }

  lemma OneBlock(items: seq<Item>, states: seq<string>, key: Option<string>)
    ensures var blocks := ImplFor(items, states, key);
      |blocks| <= 1 && (blocks != [] ==> blocks[0].target == key && (blocks[0].fns != [] || blocks[0].hasNew))
  {
  }

  lemma BlocksStay(rest: seq<Impl>, keys: seq<Option<string>>)
    requires keys != [] && OrderedBlocks(rest, keys[1..])
    ensures OrderedBlocks(rest, keys)
  {
    forall i, j | 0 <= i < j < |rest| ensures InOrder(keys, rest[i].target, rest[j].target) {
      OrderStays(keys, rest[i].target, rest[j].target);
    }
  }

  lemma BlockInFront(block: Impl, rest: seq<Impl>, keys: seq<Option<string>>)
    requires keys != [] && OrderedBlocks(rest, keys[1..])
    requires block.target == keys[0] && (block.fns != [] || block.hasNew)
    ensures OrderedBlocks([block] + rest, keys)
  {
    BlocksStay(rest, keys);
    var impls := [block] + rest;
    forall i, j | 0 <= i < j < |impls| ensures InOrder(keys, impls[i].target, impls[j].target) {
      assert impls[j] == rest[j - 1];
      if i == 0 { KeyFollows(keys, rest[j - 1].target); } else { assert impls[i] == rest[i - 1]; }
    }
  }

  ghost predicate InOrder(keys: seq<Option<string>>, x: Option<string>, y: Option<string>) {
    exists a, b :: 0 <= a < b < |keys| && keys[a] == x && keys[b] == y
  }

  lemma KeyFollows(keys: seq<Option<string>>, y: Option<string>)
    requires keys != [] && y in keys[1..]
    ensures InOrder(keys, keys[0], y)
  {
    var b :| 0 <= b < |keys[1..]| && keys[1..][b] == y;
    assert keys[b + 1] == y;
  }

  lemma OrderStays(keys: seq<Option<string>>, x: Option<string>, y: Option<string>)
    requires keys != [] && InOrder(keys[1..], x, y)
    ensures InOrder(keys, x, y)
  {
    var a, b :| 0 <= a < b < |keys[1..]| && keys[1..][a] == x && keys[1..][b] == y;
    assert keys[a + 1] == x && keys[b + 1] == y;
  }

  /** The methods of a group keep the order of the declarations. */
  lemma {:induction false} MembersInOrder(items: seq<Item>, key: Option<string>, states: seq<string>, i: nat, j: nat)
    requires i < j < |Members(items, key, states)|
    ensures exists a, b :: 0 <= a < b < |items| && items[a] == Members(items, key, states)[i] && items[b] == Members(items, key, states)[j]
    decreases |items|
  {
    hide Home;
    var n := |items| - 1;
    var front := Members(items[..n], key, states);
    if j < |front| {
      MembersInOrder(items[..n], key, states, i, j);
      var a, b :| 0 <= a < b < n && items[..n][a] == front[i] && items[..n][b] == front[j];
      assert items[a] == front[i] && items[b] == front[j];
    } else {
      MembersAre(items[..n], key, states, front[i]);
      var a :| 0 <= a < n && items[..n][a] == front[i];
      assert items[a] == front[i] && items[n] == Members(items, key, states)[j];
    }
  }

  function Generated(items: seq<Item>): seq<Impl> {
    Impls(items, ServiceStates(items), Keys(ServiceStates(items)))
  }

  /** The methods in scope on a declared state are those that live there or in the generic block. */
  lemma ScopeIs(items: seq<Item>, s: string, f: Fn)
    requires s in ServiceStates(items)
    ensures InScope(Generated(items), s, f) <==>
      exists item :: item in items && !item.States? && f == FnOf(item) && LivesAt(item, ServiceStates(items), s)
  {
    hide FnOf, PreState;
    var states := ServiceStates(items);
    var keys := Keys(states);
    ImplsHold(items, states, keys, None, f);
    ImplsHold(items, states, keys, Some(s), f);
    assert keys[|states|] == None;
    var k :| 0 <= k < |states| && states[k] == s;
    assert keys[k] == Some(s);
    assert InScope(Generated(items), s, f) <==> InImpl(Generated(items), None, f) || InImpl(Generated(items), Some(s), f);
    forall item ensures item in Members(items, None, states) <==> item in items && !item.States? && Home(item, states) == None {
      MembersAre(items, None, states, item);
    }
    forall item ensures item in Members(items, Some(s), states) <==> item in items && !item.States? && Home(item, states) == Some(s) {
      MembersAre(items, Some(s), states, item);
    }
  }

  /** The method is in the block of `s` or in the generic one. */
  predicate LivesAt(item: Item, states: seq<string>, s: string)
    requires !item.States?
  {
    Home(item, states) == None || Home(item, states) == Some(s)
  }

  // ----- `new` -----

  /** Two blocks for one type define `new`: the constructor and a method of that name. */
  ghost predicate NewClashes(impls: seq<Impl>) {
    exists i, j, f :: 0 <= i < |impls| && 0 <= j < |impls| && impls[i].hasNew
      && (impls[j].target == None || impls[j].target == impls[i].target) && f in impls[j].fns && f.name == "new"
  }

  /** The constructor clashes exactly with a method `new` of the first state or of the generic block. */
  lemma NewClashesIff(items: seq<Item>)
    requires ServiceStates(items) != []
    ensures NewClashes(Generated(items)) <==>
      exists item :: item in items && !item.States? && item.name == "new" && LivesAt(item, ServiceStates(items), ServiceStates(items)[0])
  {
    hide Impls, Members, PostState, PreState;
    var states, impls := ServiceStates(items), Generated(items);
    var first := states[0];
    NewIsInitial(items, states, Keys(states));
    assert Keys(states)[0] == Some(first);
    if NewClashes(impls) {
      var i, j, f :| 0 <= i < |impls| && 0 <= j < |impls| && impls[i].hasNew
        && (impls[j].target == None || impls[j].target == impls[i].target) && f in impls[j].fns && f.name == "new";
      assert InScope(impls, first, f);
      ScopeIs(items, first, f);
    }
    forall item | item in items && !item.States? && item.name == "new" && LivesAt(item, states, first) ensures NewClashes(impls) {
      var f := FnOf(item);
      ScopeIs(items, first, f);
      var j :| 0 <= j < |impls| && (impls[j].target == None || impls[j].target == Some(first)) && f in impls[j].fns;
      var i :| 0 <= i < |impls| && impls[i].hasNew;
      assert impls[i].target == Some(first) && f.name == "new";
    }
  }

  // ----- One call and one step -----

  /** Method names are used once. */
  ghost predicate DistinctMethods(items: seq<Item>) {
    forall i, j | 0 <= i < j < |items| && !items[i].States? && !items[j].States? :: items[i].name != items[j].name
  }

  /** The generated blocks define nothing twice. */
  ghost predicate Compiles(items: seq<Item>) {
    && Distinct(ServiceStates(items)) && DistinctMethods(items)
    && !NewClashes(Generated(items))
  }

  /** On a service in state `s` the calls that type-check are the steps of the machine. */
  ghost predicate AgreesAt(items: seq<Item>, s: string) {
    forall name, t :: CallTypes(Generated(items), s, name, t) <==> MachineStep(items, s, name, t)
  }

  /** A method in scope in `s` may be called there, and leads to the one state that it returns. */
  ghost predicate ReadRightAt(item: Item, states: seq<string>, s: string)
    requires !item.States?
  {
    LivesAt(item, states, s) ==>
      && Admits(item.clauses, s) && After(FnOf(item), s) in states
      && forall t | t in states :: Moves(item.clauses, s, t) <==> t == After(FnOf(item), s)
  }

  lemma {:induction false} PreStateIsRequired(clauses: seq<Clause>, s: string)
    requires PreState(clauses).Some?
    ensures exists c :: c in clauses && c.kind.Requires? && StateComparison(c.body) == PreState(clauses)
    ensures Admits(clauses, s) ==> PreState(clauses) == Some(s)
  {
    if clauses[0].kind.Requires? && StateComparison(clauses[0].body).Some? {
      assert clauses[0] in clauses;
      ComparisonTruth(clauses[0].body, s);
    } else {
      PreStateIsRequired(clauses[1..], s);
      assert clauses == [clauses[0]] + clauses[1..];
    }
  }

  /** A comparison in the form the generator reads is true of one state only. */
  lemma ComparisonTruth(e: Expr, s: string)
    requires StateComparison(e).Some?
    ensures SpeaksOfState(e) && StateTruth(e, s) == if StateComparison(e).value == s then True else False
  {
  }

  /** A method is in scope wherever the machine admits it. */
  lemma AdmitsLives(item: Item, states: seq<string>, s: string)
    requires !item.States? && Admits(item.clauses, s)
    ensures LivesAt(item, states, s)
  {
    hide Admits, PreState;
    if PreState(item.clauses).Some? { PreStateIsRequired(item.clauses, s); }
  }

  /** Calls and steps agree in a state exactly when every method in scope there is read right. */
  lemma AgreesAtIff(items: seq<Item>, s: string)
    requires DistinctMethods(items) && s in ServiceStates(items)
    ensures AgreesAt(items, s) <==> forall item | item in items && !item.States? :: ReadRightAt(item, ServiceStates(items), s)
  {
    hide Admits, Moves, Generated, FnOf, Home, ServiceStates, ReadRightAt, After;
    var states := ServiceStates(items);
    if AgreesAt(items, s) {
      forall item | item in items && !item.States? ensures ReadRightAt(item, states, s) { AgreementReads(items, item, s); }
    }
    if forall item | item in items && !item.States? :: ReadRightAt(item, states, s) {
      forall name, t ensures CallTypes(Generated(items), s, name, t) <==> MachineStep(items, s, name, t) {
        ReadingAgrees(items, s, name, t);
      }
    }
  }

  lemma AgreementReads(items: seq<Item>, item: Item, s: string)
    requires DistinctMethods(items) && s in ServiceStates(items) && item in items && !item.States? && AgreesAt(items, s)
    ensures ReadRightAt(item, ServiceStates(items), s)
  {
    hide Admits, Moves, Generated, PreState, PostState, ServiceStates, Home;
    var states, f := ServiceStates(items), FnOf(item);
    if LivesAt(item, states, s) {
      ScopeIs(items, s, f);
      assert CallTypes(Generated(items), s, item.name, After(f, s));
      assert MachineStep(items, s, item.name, After(f, s));
      forall t | t in states ensures Moves(item.clauses, s, t) <==> t == After(f, s) {
        assert Moves(item.clauses, s, t) ==> MachineStep(items, s, item.name, t);
        OneCall(items, item, s, t);
      }
    }
  }

  lemma OneCall(items: seq<Item>, item: Item, s: string, t: string)
    requires DistinctMethods(items) && s in ServiceStates(items) && item in items && !item.States?
    ensures CallTypes(Generated(items), s, item.name, t) <==> LivesAt(item, ServiceStates(items), s) && t == After(FnOf(item), s)
  {
    hide Generated, PreState, PostState, ServiceStates, Home;
    var states := ServiceStates(items);
    if CallTypes(Generated(items), s, item.name, t) {
      var f :| InScope(Generated(items), s, f) && f.name == item.name && t == After(f, s);
      ScopeIs(items, s, f);
    }
    if LivesAt(item, states, s) && t == After(FnOf(item), s) {
      ScopeIs(items, s, FnOf(item));
      assert InScope(Generated(items), s, FnOf(item)) && FnOf(item).name == item.name;
    }
  }

  lemma ReadingAgrees(items: seq<Item>, s: string, name: string, t: string)
    requires DistinctMethods(items) && s in ServiceStates(items)
    requires forall item | item in items && !item.States? :: ReadRightAt(item, ServiceStates(items), s)
    ensures CallTypes(Generated(items), s, name, t) <==> MachineStep(items, s, name, t)
  {
    hide Admits, Moves, Generated, PreState, PostState, ServiceStates, Home;
    var states := ServiceStates(items);
    if CallTypes(Generated(items), s, name, t) {
      var f :| InScope(Generated(items), s, f) && f.name == name && t == After(f, s);
      ScopeIs(items, s, f);
      var item :| item in items && !item.States? && f == FnOf(item) && LivesAt(item, states, s);
      assert ReadRightAt(item, states, s);
      assert item.name == name && Admits(item.clauses, s) && Moves(item.clauses, s, t);
    }
    if MachineStep(items, s, name, t) {
      var item :| item in items && !item.States? && item.name == name && Admits(item.clauses, s) && Moves(item.clauses, s, t);
      AdmitsLives(item, states, s);
      assert ReadRightAt(item, states, s);
      OneCall(items, item, s, t);
    }
  }

  // ----- Methods whose clauses the generator understands -----

  /** Every clause that speaks of the state is a comparison in the form the generator reads. */
  ghost predicate ComparisonsOnly(item: Item)
    requires !item.States?
  {
    forall c | c in item.clauses && (c.kind.Requires? || c.kind.Ensures?) && SpeaksOfState(c.body) :: StateComparison(c.body).Some?
  }

  /** All guards name one declared state, and all targets do. */
  ghost predicate OneGuardOneTarget(item: Item, states: seq<string>)
    requires !item.States?
  {
    && AllName(item.clauses, Requires, PreState(item.clauses), states)
    && AllName(item.clauses, Ensures, PostState(item.clauses), states)
  }

  ghost predicate AllName(clauses: seq<Clause>, kind: ClauseKind, state: Option<string>, states: seq<string>) {
    && (state.Some? ==> state.value in states)
    && forall c | c in clauses && c.kind == kind && StateComparison(c.body).Some? :: StateComparison(c.body) == state
  }

  lemma {:induction false} SilentIsUnknown(e: Expr, s: string)
    requires !SpeaksOfState(e)
    ensures StateTruth(e, s) == Unknown
  {
    match e
    case Binary(op, l, r) =>
      if op.And? || op.Or? || op.Implies? {
        SilentIsUnknown(l, s);
        SilentIsUnknown(r, s);
      }
    case Unary(uop, inner) => if uop.Not? { SilentIsUnknown(inner, s); }
    case _ =>
  }

  /** Clauses that are comparisons allow a state exactly when they all name it. */
  lemma ComparisonsAllow(clauses: seq<Clause>, kind: ClauseKind, s: string)
    requires forall c | c in clauses && c.kind == kind && SpeaksOfState(c.body) :: StateComparison(c.body).Some?
    ensures (forall c | c in clauses && c.kind == kind :: StateTruth(c.body, s) != False)
       <==> forall c | c in clauses && c.kind == kind && StateComparison(c.body).Some? :: StateComparison(c.body).value == s
  {
    forall c | c in clauses && c.kind == kind
      ensures StateTruth(c.body, s) == False <==> StateComparison(c.body).Some? && StateComparison(c.body).value != s
    {
      if StateComparison(c.body).Some? { ComparisonTruth(c.body, s); } else { SilentIsUnknown(c.body, s); }
    }
  }

  lemma {:induction false} PostStateIsEnsured(clauses: seq<Clause>)
    ensures PostState(clauses).Some? <==> exists c :: c in clauses && c.kind.Ensures? && StateComparison(c.body).Some?
    ensures PostState(clauses).Some? ==> exists c :: c in clauses && c.kind.Ensures? && StateComparison(c.body) == PostState(clauses)
    decreases |clauses|
  {
    if clauses != [] {
      var n := |clauses| - 1;
      PostStateIsEnsured(clauses[..n]);
      assert clauses == clauses[..n] + [clauses[n]];
    }
  }

  lemma {:induction false} NoPreState(clauses: seq<Clause>)
    requires PreState(clauses).None?
    ensures forall c | c in clauses && c.kind.Requires? :: StateComparison(c.body).None?
  {
    if clauses != [] {
      NoPreState(clauses[1..]);
      assert clauses == [clauses[0]] + clauses[1..];
    }
  }

  /** Such a method is read right in every state exactly when it has one guard and one target at most, both declared. */
  lemma ReadRightIff(item: Item, states: seq<string>)
    requires !item.States? && ComparisonsOnly(item) && states != []
    ensures (forall s | s in states :: ReadRightAt(item, states, s)) <==> OneGuardOneTarget(item, states)
  {
    hide PreState, PostState, StateTruth, SpeaksOfState, StateComparison;
    if OneGuardOneTarget(item, states) {
      forall s | s in states ensures ReadRightAt(item, states, s) { OneGuardReads(item, states, s); }
    }
    if forall s | s in states :: ReadRightAt(item, states, s) {
      var s := if Home(item, states).Some? then Home(item, states).value else states[0];
      assert LivesAt(item, states, s) && ReadRightAt(item, states, s);
      GuardIsOne(item, states, s);
      TargetIsOne(item, states, s);
    }
  }

  lemma OneGuardReads(item: Item, states: seq<string>, s: string)
    requires !item.States? && ComparisonsOnly(item) && OneGuardOneTarget(item, states) && s in states
    ensures ReadRightAt(item, states, s)
  {
    hide PreState, PostState, StateTruth, SpeaksOfState, StateComparison;
    if LivesAt(item, states, s) {
      ComparisonsAllow(item.clauses, Requires, s);
      MovesTo(item, s);
      PostStateIsEnsured(item.clauses);
    }
  }

  /** With one target at most, the machine moves where the generated method leads. */
  lemma MovesTo(item: Item, s: string)
    requires !item.States? && ComparisonsOnly(item)
    ensures forall t :: Moves(item.clauses, s, t) <==>
      if PostState(item.clauses).None? then t == s
      else forall c | c in item.clauses && c.kind.Ensures? && StateComparison(c.body).Some? :: StateComparison(c.body).value == t
  {
    hide PostState, StateTruth, SpeaksOfState, StateComparison;
    PostStateIsEnsured(item.clauses);
    forall c | c in item.clauses && c.kind.Ensures? ensures StateComparison(c.body).Some? <==> SpeaksOfState(c.body) {
      if StateComparison(c.body).Some? { ComparisonTruth(c.body, s); }
    }
    forall t
      ensures Moves(item.clauses, s, t) <==>
        if PostState(item.clauses).None? then t == s
        else forall c | c in item.clauses && c.kind.Ensures? && StateComparison(c.body).Some? :: StateComparison(c.body).value == t
    {
      ComparisonsAllow(item.clauses, Ensures, t);
    }
  }

  lemma GuardIsOne(item: Item, states: seq<string>, s: string)
    requires !item.States? && ComparisonsOnly(item) && Admits(item.clauses, s) && s in states
    ensures AllName(item.clauses, Requires, PreState(item.clauses), states)
  {
    hide PreState, StateTruth, SpeaksOfState, StateComparison;
    ComparisonsAllow(item.clauses, Requires, s);
    if PreState(item.clauses).Some? { PreStateIsRequired(item.clauses, s); } else { NoPreState(item.clauses); }
  }

  lemma TargetIsOne(item: Item, states: seq<string>, s: string)
    requires !item.States? && ComparisonsOnly(item)
    requires After(FnOf(item), s) in states && Moves(item.clauses, s, After(FnOf(item), s))
    ensures AllName(item.clauses, Ensures, PostState(item.clauses), states)
  {
    hide PostState, StateTruth, SpeaksOfState, StateComparison;
    MovesTo(item, s);
    PostStateIsEnsured(item.clauses);
  }

  /**
   * The generated interface has exactly the steps of the declared machine, in every
   * declared state, exactly when each method's guards name one declared state and each
   * method's targets do.
   */
  lemma StepsAgreeIff(items: seq<Item>)
    requires ServiceStates(items) != [] && DistinctMethods(items)
    requires forall item | item in items && !item.States? :: ComparisonsOnly(item)
    ensures (forall s | s in ServiceStates(items) :: AgreesAt(items, s))
       <==> forall item | item in items && !item.States? :: OneGuardOneTarget(item, ServiceStates(items))
  {
    hide AgreesAt, ReadRightAt, OneGuardOneTarget, ComparisonsOnly, ServiceStates;
    var states := ServiceStates(items);
    forall s | s in states
      ensures AgreesAt(items, s) <==> forall item | item in items && !item.States? :: ReadRightAt(item, states, s)
    {
      AgreesAtIff(items, s);
    }
    forall item | item in items && !item.States?
      ensures (forall s | s in states :: ReadRightAt(item, states, s)) <==> OneGuardOneTarget(item, states)
    {
      ReadRightIff(item, states);
    }
  }

  // ----- Runs -----

  ghost predicate SameRuns(items: seq<Item>, initial: string) {
    forall calls, t :: CallsType(Generated(items), initial, calls, t) <==> MachineRun(items, initial, calls, t)
  }

  /** Some run of the machine leads from `initial` to `s`. */
  ghost predicate Reachable(items: seq<Item>, initial: string, s: string) {
    exists calls :: MachineRun(items, initial, calls, s)
  }

  /** If calls and steps agree wherever the machine can get, they make the same runs. */
  lemma {:induction false} RunsAgree(items: seq<Item>, initial: string, s: string, calls: seq<string>, t: string)
    requires Reachable(items, initial, s)
    requires forall u | Reachable(items, initial, u) :: AgreesAt(items, u)
    ensures CallsType(Generated(items), s, calls, t) <==> MachineRun(items, s, calls, t)
    decreases |calls|
  {
    hide Generated, CallTypes, MachineStep, Reachable;
    if calls != [] {
      assert AgreesAt(items, s);
      forall u
        ensures MachineStep(items, s, calls[0], u) ==>
          (CallsType(Generated(items), u, calls[1..], t) <==> MachineRun(items, u, calls[1..], t))
      {
        if MachineStep(items, s, calls[0], u) {
          StepReaches(items, initial, s, calls[0], u);
          RunsAgree(items, initial, u, calls[1..], t);
        }
      }
    }
  }

  lemma {:induction false} RunThenStep(items: seq<Item>, s: string, calls: seq<string>, t: string, name: string, u: string)
    requires MachineRun(items, s, calls, t) && MachineStep(items, t, name, u)
    ensures MachineRun(items, s, calls + [name], u)
    decreases |calls|
  {
    hide MachineStep;
    if calls == [] {
      assert ([] + [name])[1..] == [];
      assert MachineRun(items, u, [], u);
    } else {
      var r :| MachineStep(items, s, calls[0], r) && MachineRun(items, r, calls[1..], t);
      RunThenStep(items, r, calls[1..], t, name, u);
      assert (calls + [name])[1..] == calls[1..] + [name];
    }
  }

  lemma StepReaches(items: seq<Item>, initial: string, s: string, name: string, u: string)
    requires Reachable(items, initial, s) && MachineStep(items, s, name, u)
    ensures Reachable(items, initial, u)
  {
    hide MachineStep, MachineRun;
    var calls :| MachineRun(items, initial, calls, s);
    RunThenStep(items, initial, calls, s, name, u);
  }

  lemma {:induction false} CallsThenCall(impls: seq<Impl>, s: string, calls: seq<string>, name: string, u: string)
    ensures CallsType(impls, s, calls + [name], u) <==> exists t :: CallsType(impls, s, calls, t) && CallTypes(impls, t, name, u)
    decreases |calls|
  {
    hide CallTypes;
    var all := calls + [name];
    if calls == [] {
      assert all[0] == name && all[1..] == [];
      assert forall t :: CallsType(impls, t, all[1..], u) <==> t == u;
      assert forall t :: CallsType(impls, s, calls, t) <==> s == t;
    } else {
      assert all[0] == calls[0] && all[1..] == calls[1..] + [name];
      forall r ensures CallsType(impls, r, all[1..], u) <==> exists t :: CallsType(impls, r, calls[1..], t) && CallTypes(impls, t, name, u) {
        CallsThenCall(impls, r, calls[1..], name, u);
      }
      CallsStep(impls, s, calls, name, u, all);
    }
  }

  lemma CallsStep(impls: seq<Impl>, s: string, calls: seq<string>, name: string, u: string, all: seq<string>)
    requires calls != [] && all != [] && all[0] == calls[0]
    requires forall r :: CallsType(impls, r, all[1..], u) <==> exists t :: CallsType(impls, r, calls[1..], t) && CallTypes(impls, t, name, u)
    ensures CallsType(impls, s, all, u) <==> exists t :: CallsType(impls, s, calls, t) && CallTypes(impls, t, name, u)
  {
    hide CallTypes;
    if CallsType(impls, s, all, u) {
      var r :| CallTypes(impls, s, all[0], r) && CallsType(impls, r, all[1..], u);
      var t :| CallsType(impls, r, calls[1..], t) && CallTypes(impls, t, name, u);
      assert CallsType(impls, s, calls, t);
    }
    forall t | CallsType(impls, s, calls, t) && CallTypes(impls, t, name, u) ensures CallsType(impls, s, all, u) {
      var r :| CallTypes(impls, s, calls[0], r) && CallsType(impls, r, calls[1..], t);
      assert CallsType(impls, r, all[1..], u);
    }
  }

  /** A method name occurs once in the blocks, so a call sequence determines the final state. */
  lemma {:induction false} CallsAreDeterministic(items: seq<Item>, s: string, calls: seq<string>, t: string, t': string)
    requires DistinctMethods(items)
    requires CallsType(Generated(items), s, calls, t) && CallsType(Generated(items), s, calls, t')
    ensures t == t'
    decreases |calls|
  {
    hide CallTypes, Generated;
    if calls != [] {
      var u :| CallTypes(Generated(items), s, calls[0], u) && CallsType(Generated(items), u, calls[1..], t);
      var u' :| CallTypes(Generated(items), s, calls[0], u') && CallsType(Generated(items), u', calls[1..], t');
      OneTarget(items, s, calls[0], u, u');
      CallsAreDeterministic(items, u, calls[1..], t, t');
    }
  }

  lemma OneTarget(items: seq<Item>, s: string, name: string, u: string, u': string)
    requires DistinctMethods(items) && CallTypes(Generated(items), s, name, u) && CallTypes(Generated(items), s, name, u')
    ensures u == u'
  {
    hide Generated, PostState;
    var f :| InScope(Generated(items), s, f) && f.name == name && u == After(f, s);
    var f' :| InScope(Generated(items), s, f') && f'.name == name && u' == After(f', s);
    var item := MethodOf(items, s, f);
    var item' := MethodOf(items, s, f');
  }

  /** A method in scope is generated for some declared one. */
  lemma MethodOf(items: seq<Item>, s: string, f: Fn) returns (item: Item)
    requires InScope(Generated(items), s, f)
    ensures item in items && !item.States? && f == FnOf(item)
  {
    hide FnOf, Members, PreState;
    var states := ServiceStates(items);
    var i :| 0 <= i < |Generated(items)| && (Generated(items)[i].target == None || Generated(items)[i].target == Some(s)) && f in Generated(items)[i].fns;
    var key := Generated(items)[i].target;
    assert InImpl(Generated(items), key, f);
    ImplsHold(items, states, Keys(states), key, f);
    item :| item in Members(items, key, states) && !item.States? && f == FnOf(item);
    MembersAre(items, key, states, item);
  }

  /**
   * From a service in state `initial`, such as `new()` gives, the interface admits exactly
   * the runs of the machine exactly when calls and steps agree in every state that the
   * machine can reach.
   */
  lemma FromNewIff(items: seq<Item>, initial: string)
    requires Compiles(items)
    ensures SameRuns(items, initial) <==> forall s | Reachable(items, initial, s) :: AgreesAt(items, s)
  {
    hide Generated, CallsType, MachineRun, AgreesAt, NewClashes;
    if forall s | Reachable(items, initial, s) :: AgreesAt(items, s) {
      forall calls, t ensures CallsType(Generated(items), initial, calls, t) <==> MachineRun(items, initial, calls, t) {
        StartsReachable(items, initial);
        RunsAgree(items, initial, initial, calls, t);
      }
    }
    if SameRuns(items, initial) {
      forall s | Reachable(items, initial, s) ensures AgreesAt(items, s) {
        var calls :| MachineRun(items, initial, calls, s);
        SameRunsAgree(items, initial, calls, s);
      }
    }
  }

  lemma StartsReachable(items: seq<Item>, initial: string)
    ensures Reachable(items, initial, initial)
  {
    assert MachineRun(items, initial, [], initial);
  }

  lemma SameRunsAgree(items: seq<Item>, initial: string, calls: seq<string>, s: string)
    requires DistinctMethods(items) && SameRuns(items, initial) && MachineRun(items, initial, calls, s)
    ensures AgreesAt(items, s)
  {
    hide Generated, CallsType, CallTypes, MachineStep, MachineRun;
    assert CallsType(Generated(items), initial, calls, s);
    forall name, u ensures CallTypes(Generated(items), s, name, u) <==> MachineStep(items, s, name, u) {
      CallsThenCall(Generated(items), initial, calls, name, u);
      assert CallsType(Generated(items), initial, calls + [name], u) <==> MachineRun(items, initial, calls + [name], u);
      if MachineStep(items, s, name, u) {
        RunThenStep(items, initial, calls, s, name, u);
        var t :| CallsType(Generated(items), initial, calls, t) && CallTypes(Generated(items), t, name, u);
        CallsAreDeterministic(items, initial, calls, s, t);
      }
      if CallTypes(Generated(items), s, name, u) {
        var t := LastStep(items, initial, calls, name, u);
        assert CallsType(Generated(items), initial, calls, t);
        CallsAreDeterministic(items, initial, calls, s, t);
      }
    }
  }

  lemma {:induction false} LastStep(items: seq<Item>, s: string, calls: seq<string>, name: string, u: string) returns (t: string)
    requires MachineRun(items, s, calls + [name], u)
    ensures MachineRun(items, s, calls, t) && MachineStep(items, t, name, u)
    decreases |calls|
  {
    hide MachineStep;
    var all := calls + [name];
    var r :| MachineStep(items, s, all[0], r) && MachineRun(items, r, all[1..], u);
    if calls == [] {
      assert all[1..] == [];
      t := s;
    } else {
      assert all[1..] == calls[1..] + [name];
      t := LastStep(items, r, calls[1..], name, u);
    }
  }

  /**
   * From every declared state the interface admits exactly the machine's runs exactly
   * when each method's guards name one declared state and each method's targets do.
   */
  lemma BisimulationIff(items: seq<Item>)
    requires ServiceStates(items) != [] && Compiles(items)
    requires forall item | item in items && !item.States? :: ComparisonsOnly(item)
    ensures (forall s | s in ServiceStates(items) :: SameRuns(items, s))
       <==> forall item | item in items && !item.States? :: OneGuardOneTarget(item, ServiceStates(items))
  {
    hide AgreesAt, OneGuardOneTarget, ComparisonsOnly, ServiceStates, SameRuns, Reachable, NewClashes, Generated;
    var states := ServiceStates(items);
    StepsAgreeIff(items);
    forall s | s in states
      ensures SameRuns(items, s) <==> forall u | Reachable(items, s, u) :: AgreesAt(items, u)
      ensures Reachable(items, s, s)
      ensures forall u | Reachable(items, s, u) :: u in states
    {
      FromNewIff(items, s);
      StartsReachable(items, s);
      ReachableIsDeclared(items, s);
    }
  }

  lemma ReachableIsDeclared(items: seq<Item>, s: string)
    requires s in ServiceStates(items)
    ensures forall u | Reachable(items, s, u) :: u in ServiceStates(items)
  {
    hide MachineRun, ServiceStates;
    forall u | Reachable(items, s, u) ensures u in ServiceStates(items) {
      var calls :| MachineRun(items, s, calls, u);
      RunIsDeclared(items, s, calls, u);
    }
  }

  lemma {:induction false} RunIsDeclared(items: seq<Item>, s: string, calls: seq<string>, u: string)
    requires s in ServiceStates(items) && MachineRun(items, s, calls, u)
    ensures u in ServiceStates(items)
    decreases |calls|
  {
    if calls != [] {
      var r :| MachineStep(items, s, calls[0], r) && MachineRun(items, r, calls[1..], u);
      RunIsDeclared(items, r, calls[1..], u);
    }
  }

  // ----- What the generator does not see -----

  /** A method with an undeclared guard can be called first, although the machine has no such step. */
  lemma UndeclaredGuardIsIgnored(items: seq<Item>, item: Item)
    requires ServiceStates(items) != [] && DistinctMethods(items)
    requires item in items && !item.States? && PreState(item.clauses).Some?
    requires PreState(item.clauses).value !in ServiceStates(items)
    ensures var initial, t := ServiceStates(items)[0], After(FnOf(item), ServiceStates(items)[0]);
      CallsType(Generated(items), initial, [item.name], t) && !MachineRun(items, initial, [item.name], t)
  {
    hide Generated, PostState, Moves, CallTypes;
    var initial := ServiceStates(items)[0];
    PreStateIsRequired(item.clauses, initial);
    IgnoredGuard(items, item, initial);
  }

  /** A method in scope in a state that its clauses exclude: one call, and no step. */
  lemma IgnoredGuard(items: seq<Item>, item: Item, s: string)
    requires DistinctMethods(items) && s in ServiceStates(items)
    requires item in items && !item.States? && LivesAt(item, ServiceStates(items), s) && !Admits(item.clauses, s)
    ensures CallsType(Generated(items), s, [item.name], After(FnOf(item), s))
    ensures !MachineRun(items, s, [item.name], After(FnOf(item), s))
  {
    hide Generated, PostState, Moves, CallTypes, ServiceStates, Admits;
    var t := After(FnOf(item), s);
    OneCall(items, item, s, t);
    var calls := [item.name];
    assert calls[1..] == [];
    assert CallsType(Generated(items), t, calls[1..], t);
    assert forall u :: !MachineStep(items, s, item.name, u);
  }

  /** Two guards that name different states: the second is dropped, and the method can be called in the first. */
  lemma SecondGuardIsIgnored(items: seq<Item>, item: Item, c: Clause)
    requires DistinctMethods(items) && item in items && !item.States?
    requires PreState(item.clauses).Some? && PreState(item.clauses).value in ServiceStates(items)
    requires c in item.clauses && c.kind.Requires? && StateComparison(c.body).Some? && StateComparison(c.body) != PreState(item.clauses)
    ensures var s := PreState(item.clauses).value;
      CallsType(Generated(items), s, [item.name], After(FnOf(item), s)) && !MachineRun(items, s, [item.name], After(FnOf(item), s))
  {
    hide PreState, PostState, StateTruth, StateComparison, CallsType, MachineRun;
    var s := PreState(item.clauses).value;
    ComparisonTruth(c.body, s);
    IgnoredGuard(items, item, s);
  }

  /** `requires self.state == a or self.state == b`: a guard in another form is dropped, and every state may call. */
  lemma DisjunctiveGuardIsIgnored(items: seq<Item>, item: Item, a: string, b: string, s: string)
    requires DistinctMethods(items) && item in items && !item.States? && s in ServiceStates(items) && s != a && s != b
    requires var here := Field(Ident("self"), "state");
      item.clauses == [Clause(Requires, Binary(Or, Binary(Eq, here, Ident(a)), Binary(Eq, here, Ident(b))))]
    ensures CallsType(Generated(items), s, [item.name], s) && !MachineRun(items, s, [item.name], s)
  {
    var c := item.clauses[0];
    assert item.clauses[1..] == [] && item.clauses[..|item.clauses| - 1] == [];
    assert PostState([]) == None && PreState([]) == None;
    assert PreState(item.clauses) == None && PostState(item.clauses) == None;
    assert StateTruth(c.body.lhs, s) == False && StateTruth(c.body.rhs, s) == False;
    assert c in item.clauses && StateTruth(c.body, s) == False;
    IgnoredGuard(items, item, s);
  }

  /** `requires S == self.state`: written this way round the guard is dropped, too. */
  lemma ReversedGuardIsIgnored(items: seq<Item>, item: Item, a: string, s: string)
    requires DistinctMethods(items) && item in items && !item.States? && s in ServiceStates(items) && s != a
    requires item.clauses == [Clause(Requires, Binary(Eq, Ident(a), Field(Ident("self"), "state")))]
    ensures CallsType(Generated(items), s, [item.name], s) && !MachineRun(items, s, [item.name], s)
  {
    var c := item.clauses[0];
    assert item.clauses[1..] == [] && item.clauses[..|item.clauses| - 1] == [];
    assert PostState([]) == None && PreState([]) == None;
    assert PreState(item.clauses) == None && PostState(item.clauses) == None;
    assert c in item.clauses && StateTruth(c.body, s) == False;
    IgnoredGuard(items, item, s);
  }

  /** Without targets in other forms, a call sequence determines the final state of the machine, too. */
  lemma {:induction false} RunIsDeterministic(items: seq<Item>, s: string, calls: seq<string>, t: string, t': string)
    requires DistinctMethods(items) && forall item | item in items && !item.States? :: ComparisonsOnly(item)
    requires MachineRun(items, s, calls, t) && MachineRun(items, s, calls, t')
    ensures t == t'
    decreases |calls|
  {
    hide MachineStep, ComparisonsOnly;
    if calls != [] {
      var u :| MachineStep(items, s, calls[0], u) && MachineRun(items, u, calls[1..], t);
      var u' :| MachineStep(items, s, calls[0], u') && MachineRun(items, u', calls[1..], t');
      StepIsDeterministic(items, s, calls[0], u, u');
      RunIsDeterministic(items, u, calls[1..], t, t');
    }
  }

  lemma StepIsDeterministic(items: seq<Item>, s: string, name: string, u: string, u': string)
    requires DistinctMethods(items) && forall item | item in items && !item.States? :: ComparisonsOnly(item)
    requires MachineStep(items, s, name, u) && MachineStep(items, s, name, u')
    ensures u == u'
  {
    hide ComparisonsOnly, PostState, StateTruth, StateComparison, Moves, Admits, ServiceStates;
    var item :| item in items && !item.States? && item.name == name && Admits(item.clauses, s) && Moves(item.clauses, s, u);
    var item' :| item' in items && !item'.States? && item'.name == name && Admits(item'.clauses, s) && Moves(item'.clauses, s, u');
    assert item == item';
    MovesTo(item, s);
    PostStateIsEnsured(item.clauses);
  }
}
