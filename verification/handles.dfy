/**
 * Services as Rust values: a program holds handles, a call through a handle that is
 * passed by value takes it away, and a returned service is a new handle.
 */
module Handles {
  import opened Ast
  import opened Typestate

  /** The handles that may still be used, with the state each one has in its type, and how many were made. */
  datatype Services = Services(live: map<nat, string>, made: nat)

  function Called(a: Services, h: nat, f: Fn): Services {
    var kept := if f.self.ByValue? then map k | k in a.live && k != h :: a.live[k] else a.live;
    if f.ret.Some? then Services(kept[a.made := f.ret.value], a.made + 1) else Services(kept, a.made)
  }

  /** The call type-checks: its handle is still live, and its method is in scope. */
  ghost predicate CallOn(impls: seq<Impl>, a: Services, call: (nat, string), b: Services) {
    call.0 in a.live && exists f :: InScope(impls, a.live[call.0], f) && f.name == call.1 && b == Called(a, call.0, f)
  }

  ghost predicate HandleRun(impls: seq<Impl>, a: Services, calls: seq<(nat, string)>, b: Services)
    decreases |calls|
  {
    if calls == [] then a == b
    else exists c :: CallOn(impls, a, calls[0], c) && HandleRun(impls, c, calls[1..], b)
  }

  function Names(calls: seq<(nat, string)>): seq<string> {
    seq(|calls|, i requires 0 <= i < |calls| => calls[i].1)
  }

  /** One handle is live, for a service in state `s`. */
  predicate Only(a: Services, h: nat, s: string) {
    a.live == map[h := s] && h < a.made
  }

  /** Some method of this name moves the service to another state. */
  ghost predicate Transition(items: seq<Item>, name: string) {
    exists item :: item in items && !item.States? && item.name == name && HasTransition(item.clauses)
  }

  /** A call through the one live handle leaves one: a new one exactly after a transition. */
  lemma CallKeepsOne(items: seq<Item>, a: Services, h: nat, s: string, call: (nat, string), b: Services) returns (h': nat, t: string)
    requires DistinctMethods(items) && Only(a, h, s) && CallOn(Generated(items), a, call, b)
    ensures call.0 == h && CallTypes(Generated(items), s, call.1, t) && Only(b, h', t)
    ensures if Transition(items, call.1) then h' == a.made else h' == h
  {
    hide Generated, FnOf, HasTransition;
    var f :| InScope(Generated(items), a.live[h], f) && f.name == call.1 && b == Called(a, h, f);
    var item := MethodOf(items, s, f);
    ReceiverIs(item);
    assert Transition(items, call.1) <==> HasTransition(item.clauses);
    t := After(f, s);
    h' := if f.ret.Some? then a.made else h;
    OneCalled(a, h, s, f);
  }

  lemma OneCalled(a: Services, h: nat, s: string, f: Fn)
    requires Only(a, h, s) && (f.ret.Some? <==> f.self.ByValue?)
    ensures Only(Called(a, h, f), if f.ret.Some? then a.made else h, After(f, s))
  {
    assert (map k | k in a.live && k != h :: a.live[k]) == map[];
  }

  /** Every call the types admit can be made through the one live handle. */
  lemma CallIsPossible(items: seq<Item>, a: Services, h: nat, s: string, name: string, t: string) returns (h': nat, b: Services)
    requires Only(a, h, s) && CallTypes(Generated(items), s, name, t)
    ensures CallOn(Generated(items), a, (h, name), b) && Only(b, h', t)
  {
    hide Generated, FnOf, HasTransition;
    var f :| InScope(Generated(items), s, f) && f.name == name && t == After(f, s);
    var item := MethodOf(items, s, f);
    ReceiverIs(item);
    b := Called(a, h, f);
    h' := if f.ret.Some? then a.made else h;
    OneCalled(a, h, s, f);
  }

  lemma {:induction false} RunHasOneHandle(items: seq<Item>, a: Services, h: nat, s: string, calls: seq<(nat, string)>, b: Services)
    returns (h': nat, t: string)
    requires DistinctMethods(items) && Only(a, h, s) && HandleRun(Generated(items), a, calls, b)
    ensures Only(b, h', t) && CallsType(Generated(items), s, Names(calls), t)
    decreases |calls|
  {
    hide Generated, CallOn, CallTypes, Only;
    if calls == [] {
      h', t := h, s;
    } else {
      var c :| CallOn(Generated(items), a, calls[0], c) && HandleRun(Generated(items), c, calls[1..], b);
      var h1, u := CallKeepsOne(items, a, h, s, calls[0], c);
      h', t := RunHasOneHandle(items, c, h1, u, calls[1..], b);
      assert Names(calls)[0] == calls[0].1 && Names(calls)[1..] == Names(calls[1..]);
    }
  }

  lemma {:induction false} RunIsPossible(items: seq<Item>, a: Services, h: nat, s: string, names: seq<string>, t: string)
    returns (calls: seq<(nat, string)>, b: Services, h': nat)
    requires Only(a, h, s) && CallsType(Generated(items), s, names, t)
    ensures Names(calls) == names && HandleRun(Generated(items), a, calls, b) && Only(b, h', t)
    decreases |names|
  {
    hide Generated, CallOn, CallTypes, Only;
    if names == [] {
      calls, b, h' := [], a, h;
    } else {
      var u :| CallTypes(Generated(items), s, names[0], u) && CallsType(Generated(items), u, names[1..], t);
      var h1, c := CallIsPossible(items, a, h, s, names[0], u);
      var rest;
      rest, b, h' := RunIsPossible(items, c, h1, u, names[1..], t);
      calls := [(h, names[0])] + rest;
      assert calls[1..] == rest;
      assert Names(calls) == [names[0]] + Names(rest);
    }
  }

  /**
   * Programs over handles are the call sequences of the types: from one service, a
   * sequence can be made in some way of choosing handles exactly when it type-checks, and
   * whatever the program, one handle is left and has the state of the sequence.
   */
  lemma HandlesFollowTypes(items: seq<Item>, a: Services, h: nat, s: string, names: seq<string>, t: string)
    requires DistinctMethods(items) && Only(a, h, s)
    ensures CallsType(Generated(items), s, names, t)
       <==> exists calls, b, h' :: Names(calls) == names && HandleRun(Generated(items), a, calls, b) && Only(b, h', t)
    ensures forall calls, b | HandleRun(Generated(items), a, calls, b) :: exists h', u :: Only(b, h', u)
  {
    hide Generated, CallsType, HandleRun;
    if CallsType(Generated(items), s, names, t) {
      var calls, b, h' := RunIsPossible(items, a, h, s, names, t);
    }
    forall calls, b | HandleRun(Generated(items), a, calls, b)
      ensures exists h', u :: Only(b, h', u) && CallsType(Generated(items), s, Names(calls), u)
    {
      var h', u := RunHasOneHandle(items, a, h, s, calls, b);
    }
    forall calls, b, h' | Names(calls) == names && HandleRun(Generated(items), a, calls, b) && Only(b, h', t)
      ensures CallsType(Generated(items), s, names, t)
    {
      var h'', u := RunHasOneHandle(items, a, h, s, calls, b);
      OnlyOne(b, h', t, h'', u);
    }
  }

  lemma OnlyOne(b: Services, h: nat, s: string, h': nat, s': string)
    requires Only(b, h, s) && Only(b, h', s')
    ensures h == h' && s == s'
  {
    assert h in b.live && b.live[h] == s;
    assert h' in b.live && b.live[h'] == s';
  }

  /** Handles that a run uses are live at its start or made by it. */
  lemma {:induction false} RunUsesLater(items: seq<Item>, a: Services, h: nat, s: string, calls: seq<(nat, string)>, b: Services, i: nat)
    requires DistinctMethods(items) && Only(a, h, s) && HandleRun(Generated(items), a, calls, b) && i < |calls|
    ensures calls[i].0 == h || a.made <= calls[i].0
    decreases |calls|
  {
    hide Generated, CallOn, CallTypes;
    var c :| CallOn(Generated(items), a, calls[0], c) && HandleRun(Generated(items), c, calls[1..], b);
    var h1, u := CallKeepsOne(items, a, h, s, calls[0], c);
    MadeGrows(items, a, calls[0], c);
    if i > 0 { RunUsesLater(items, c, h1, u, calls[1..], b, i - 1); }
  }

  lemma MadeGrows(items: seq<Item>, a: Services, call: (nat, string), b: Services)
    requires CallOn(Generated(items), a, call, b)
    ensures a.made <= b.made
  {
    hide Generated;
  }

  /**
   * No program uses a handle again after a transition through it, and after any other
   * call the next one goes through the same handle.
   */
  lemma {:induction false} TransitionRetires(items: seq<Item>, a: Services, h: nat, s: string, calls: seq<(nat, string)>, b: Services, i: nat)
    requires DistinctMethods(items) && Only(a, h, s) && HandleRun(Generated(items), a, calls, b) && i < |calls|
    ensures Transition(items, calls[i].1) ==> forall j :: i < j < |calls| ==> calls[j].0 != calls[i].0
    ensures !Transition(items, calls[i].1) && i + 1 < |calls| ==> calls[i + 1].0 == calls[i].0
    decreases |calls|
  {
    hide Generated, CallOn, CallTypes, Transition;
    var c :| CallOn(Generated(items), a, calls[0], c) && HandleRun(Generated(items), c, calls[1..], b);
    var h1, u := CallKeepsOne(items, a, h, s, calls[0], c);
    if i > 0 {
      TransitionRetires(items, c, h1, u, calls[1..], b, i - 1);
      assert forall j :: i < j < |calls| ==> calls[j] == calls[1..][j - 1];
    } else if Transition(items, calls[0].1) {
      MadeGrows(items, a, calls[0], c);
      forall j | 0 < j < |calls| ensures calls[j].0 != h { RunUsesLater(items, c, h1, u, calls[1..], b, j - 1); }
    } else if |calls| > 1 {
      var d :| CallOn(Generated(items), c, calls[1..][0], d) && HandleRun(Generated(items), d, calls[1..][1..], b);
      var h2, w := CallKeepsOne(items, c, h1, u, calls[1..][0], d);
    }
  }
}
