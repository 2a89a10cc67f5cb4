/**
 * Dependency hints between components: a component that mentions "test"
 * depends on every other component that does not, and a component that
 * mentions a user-facing word depends on every other component that mentions
 * "auth".
 */
module TaskDependencies {
  import opened Strings

  const AuthConsumers: seq<string> := ["user", "profile", "settings", "dashboard", "admin"]

  predicate IsTest(c: string) {
    Contains(c, "test")
  }

  /** `any(consumer in c for consumer in auth_consumers)`. */
  predicate IsAuthConsumer(c: string) {
    exists k :: 0 <= k < |AuthConsumers| && Contains(c, AuthConsumers[k])
  }

  predicate HasAuth(c: string) {
    Contains(c, "auth")
  }

  /** `[c for c in cs if c != component and 'test' not in c]`. */
  function TestDeps(cs: seq<string>, component: string): seq<string>
    decreases |cs|
  {
    if cs == [] then []
    else
      var x := cs[|cs| - 1];
      TestDeps(cs[..|cs| - 1], component) + (if x != component && !IsTest(x) then [x] else [])
  }

  /** The comprehension keeps exactly the other components that are not tests. */
  lemma {:induction false} TestDepsMembers(cs: seq<string>, component: string, x: string)
    ensures x in TestDeps(cs, component) <==> x in cs && x != component && !IsTest(x)
    decreases |cs|
  {
    if cs != [] {
      TestDepsMembers(cs[..|cs| - 1], component, x);
      assert cs == cs[..|cs| - 1] + [cs[|cs| - 1]];
    }
  }

  /** The others the auth loop appends, in order: those that mention "auth". */
  function AuthDeps(cs: seq<string>, component: string): seq<string>
    decreases |cs|
  {
    if cs == [] then []
    else
      var x := cs[|cs| - 1];
      AuthDeps(cs[..|cs| - 1], component) + (if HasAuth(x) && x != component then [x] else [])
  }

  /** The loop appends exactly the other components that mention "auth". */
  lemma {:induction false} AuthDepsMembers(cs: seq<string>, component: string, x: string)
    ensures x in AuthDeps(cs, component) <==> x in cs && x != component && HasAuth(x)
    decreases |cs|
  {
    if cs != [] {
      AuthDepsMembers(cs[..|cs| - 1], component, x);
      assert cs == cs[..|cs| - 1] + [cs[|cs| - 1]];
    }
  }

  type Deps = map<string, seq<string>>

  /** `{c: [] for c in components}`. */
  function Initial(cs: seq<string>): (d: Deps)
    ensures d.Keys == set c | c in cs
  {
    map c | c in cs :: []
  }

  /** The loop body for one component: the test rule replaces its list, then
      the auth rule appends to it. */
  function Step(deps: Deps, cs: seq<string>, c: string): (d: Deps)
    requires c in deps
    ensures d.Keys == deps.Keys
  {
    var d := if IsTest(c) then deps[c := TestDeps(cs, c)] else deps;
    if IsAuthConsumer(c) then d[c := d[c] + AuthDeps(cs, c)] else d
  }

  /** The map after the loop has handled the first n components. */
  function DepsAfter(cs: seq<string>, n: nat): (d: Deps)
    requires n <= |cs|
    ensures d.Keys == set c | c in cs
  {
    if n == 0 then Initial(cs) else Step(DepsAfter(cs, n - 1), cs, cs[n - 1])
  }

  /** `detect_dependencies`. */
  function Dependencies(cs: seq<string>): (d: Deps)
    ensures d.Keys == set c | c in cs
  {
    DepsAfter(cs, |cs|)
  }

  /** When `x` is a dependency of `c` according to the two rules. */
  predicate Depends(cs: seq<string>, c: string, x: string) {
    x in cs && x != c && ((IsTest(c) && !IsTest(x)) || (IsAuthConsumer(c) && HasAuth(x)))
  }

  /** After n steps, a component lists exactly the dependencies the rules give
      it if it was among the first n components, and nothing otherwise;
      repeated components list the same dependencies again. */
  lemma {:induction false} DepsAfterMembers(cs: seq<string>, n: nat, c: string, x: string)
    requires n <= |cs| && c in cs
    ensures x in DepsAfter(cs, n)[c] <==> c in cs[..n] && Depends(cs, c, x)
    decreases n
  {
    if n > 0 {
      DepsAfterMembers(cs, n - 1, c, x);
      StepMembers(DepsAfter(cs, n - 1), cs, cs[n - 1], c, x);
      PrefixMembers(cs, n, c);
    }
  }

  lemma PrefixMembers(cs: seq<string>, n: nat, c: string)
    requires 0 < n <= |cs|
    ensures c in cs[..n] <==> c in cs[..n - 1] || c == cs[n - 1]
  {
    assert cs[..n] == cs[..n - 1] + [cs[n - 1]];
  }

  /** One step changes only the entry of the component it handles, which then
      holds what the rules give plus, when the test rule did not replace it,
      what it held before. */
  lemma StepMembers(deps: Deps, cs: seq<string>, c': string, c: string, x: string)
    requires c' in deps && c in deps
    ensures c != c' ==> Step(deps, cs, c')[c] == deps[c]
    ensures c == c' ==> (x in Step(deps, cs, c')[c] <==> Depends(cs, c, x) || (!IsTest(c) && x in deps[c]))
  {
    TestDepsMembers(cs, c, x);
    AuthDepsMembers(cs, c, x);
  }

  /** Every component has an entry; an entry lists exactly what the rules give,
      so never the component itself and never anything that is not a component. */
  lemma DependenciesSound(cs: seq<string>, c: string, x: string)
    requires c in cs
    ensures c in Dependencies(cs)
    ensures x in Dependencies(cs)[c] <==> Depends(cs, c, x)
    ensures c !in Dependencies(cs)[c]
    ensures x in Dependencies(cs)[c] ==> x in cs
  {
    DepsAfterMembers(cs, |cs|, c, x);
    DepsAfterMembers(cs, |cs|, c, c);
    assert cs[..|cs|] == cs;
  }

  predicate Distinct(cs: seq<string>) {
    forall i, j :: 0 <= i < j < |cs| ==> cs[i] != cs[j]
  }

  /** With no repeated component, each list is exactly the test rule's list
      (if it applies) followed by the auth rule's list (if it applies), both
      in component order. */
  lemma {:induction false} DepsAfterExact(cs: seq<string>, n: nat, c: string)
    requires n <= |cs| && c in cs && Distinct(cs)
    ensures DepsAfter(cs, n)[c] ==
      if c in cs[..n] then
        (if IsTest(c) then TestDeps(cs, c) else []) + (if IsAuthConsumer(c) then AuthDeps(cs, c) else [])
      else []
    decreases n
  {
    if n > 0 {
      DepsAfterExact(cs, n - 1, c);
      PrefixMembers(cs, n, c);
      if c == cs[n - 1] {
        assert c !in cs[..n - 1];
      }
      StepExact(DepsAfter(cs, n - 1), cs, cs[n - 1], c);
    }
  }

  lemma StepExact(deps: Deps, cs: seq<string>, c': string, c: string)
    requires c' in deps && c in deps
    ensures c != c' ==> Step(deps, cs, c')[c] == deps[c]
    ensures c == c' && deps[c] == [] ==>
      Step(deps, cs, c')[c] == (if IsTest(c) then TestDeps(cs, c) else []) + (if IsAuthConsumer(c) then AuthDeps(cs, c) else [])
  {
  }

  lemma DependenciesExact(cs: seq<string>, c: string)
    requires c in cs && Distinct(cs)
    ensures Dependencies(cs)[c] ==
      (if IsTest(c) then TestDeps(cs, c) else []) + (if IsAuthConsumer(c) then AuthDeps(cs, c) else [])
  {
    DepsAfterExact(cs, |cs|, c);
    assert cs[..|cs|] == cs;
  }

  /** `detect_dependencies` as the loops write it. */
  method DetectDependencies(components: seq<string>) returns (deps: Deps)
    ensures deps == Dependencies(components)
  {
    deps := map c | c in components :: [];
    for i := 0 to |components|
      invariant deps == DepsAfter(components, i)
    {
      deps := ApplyRules(deps, components, components[i]);
    }
  }

  /** The loop body for one component. */
  method ApplyRules(deps0: Deps, components: seq<string>, component: string) returns (deps: Deps)
    requires component in deps0
    ensures deps == Step(deps0, components, component)
  {
    deps := deps0;
    if Contains(component, "test") {
      deps := deps[component := TestDeps(components, component)];
    }
    if IsAuthConsumer(component) {
      deps := AppendAuth(deps, components, component);
    }
  }

  /** `for other in components: if 'auth' in other and other != component:
      deps[component].append(other)`. */
  method AppendAuth(deps0: Deps, components: seq<string>, component: string) returns (deps: Deps)
    requires component in deps0
    ensures deps == deps0[component := deps0[component] + AuthDeps(components, component)]
  {
    var list := deps0[component];
    for j := 0 to |components|
      invariant list == deps0[component] + AuthDeps(components[..j], component)
    {
      AuthDepsSnoc(components, j, component);
      var other := components[j];
      if Contains(other, "auth") && other != component {
        list := list + [other];
      }
    }
    assert components[..|components|] == components;
    deps := deps0[component := list];
  }

  lemma AuthDepsSnoc(cs: seq<string>, j: nat, c: string)
    requires j < |cs|
    ensures AuthDeps(cs[..j + 1], c) == AuthDeps(cs[..j], c) + (if HasAuth(cs[j]) && cs[j] != c then [cs[j]] else [])
  {
    assert cs[..j + 1][..j] == cs[..j];
  }
}
