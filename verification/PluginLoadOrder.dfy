/** `plugin_load_order`: a heap-driven topological order of plugins, why it is the
    lexicographically least one, and why it fails only when no order exists. */
module PluginLoadOrder {
  import opened Wrappers
  import opened Names
  import opened Collections
  import Heap

  /** Each plugin with the names it depends on, possibly repeated. */
  type Plugins = map<Name, seq<Name>>

  datatype LoadError = InvalidDependency | DependencyCycle

  // ----- Specification -----

  function Needs(plugins: Plugins, n: Name): set<Name>
    requires n in plugins
  {
    Elements(plugins[n])
  }

  /** A plugin depends on other known plugins only. */
  ghost predicate ValidFor(plugins: Plugins, n: Name)
    requires n in plugins
  {
    Needs(plugins, n) <= plugins.Keys - {n}
  }

  ghost predicate ValidDependencies(plugins: Plugins) {
    forall n :: n in plugins ==> ValidFor(plugins, n)
  }

  /** Every plugin exactly once, each after everything it depends on. */
  ghost predicate IsLoadOrder(plugins: Plugins, order: seq<Name>) {
    && Distinct(order)
    && Elements(order) == plugins.Keys
    && Closed(plugins, order)
  }

  ghost predicate Closed(plugins: Plugins, order: seq<Name>) {
    forall i :: 0 <= i < |order| ==>
      order[i] in plugins && Needs(plugins, order[i]) <= Elements(order[..i])
  }

  /** `a` is a prefix of `b`, or smaller at the first position where they differ. */
  ghost predicate LexAtMost(a: seq<Name>, b: seq<Name>) {
    a <= b || exists k: nat :: FirstDifferenceBelow(a, b, k)
  }

  /** A walk along dependencies that comes back to where it started. */
  ghost predicate IsCycle(plugins: Plugins, walk: seq<Name>) {
    && IsChain(plugins, walk)
    && |walk| > 1 && walk[0] == walk[|walk| - 1]
  }

  ghost predicate IsChain(plugins: Plugins, walk: seq<Name>) {
    forall i :: 0 <= i < |walk| - 1 ==> walk[i] in plugins && walk[i + 1] in Needs(plugins, walk[i])
  }

  ghost predicate HasCycle(plugins: Plugins) {
    exists walk :: IsCycle(plugins, walk)
  }

  // ----- Program -----

  method PluginLoadOrder(plugins: Plugins) returns (r: Result<seq<Name>, LoadError>)
    ensures r.Ok? ==> IsLoadOrder(plugins, r.value)
    ensures r.Ok? ==> forall t :: IsLoadOrder(plugins, t) ==> LexAtMost(r.value, t)
    ensures r == Err(InvalidDependency) <==> !ValidDependencies(plugins)
    ensures r == Err(DependencyCycle) <==> ValidDependencies(plugins) && HasCycle(plugins)
  {
    var valid, indegree, dependents := CountDependencies(plugins);
    if !valid {
      return Err(InvalidDependency);
    }
    var ready := ReadyAtStart(plugins, indegree);
    var output := [];
    while ready != multiset{}
      invariant Distinct(output) && Closed(plugins, output)
      invariant Counted(plugins, indegree, Elements(output))
      invariant Queued(plugins, ready, Elements(output))
      invariant forall t :: IsLoadOrder(plugins, t) ==> LexAtMost(output, t)
      decreases plugins.Keys - Elements(output)
    {
      var name;
      name, ready := PopReady(plugins, ready, Elements(output));
      LeastReadyFirst(plugins, output, name);
      AppendLoaded(plugins, output, name);
      indegree, ready := Release(plugins, dependents[name], name, Elements(output), indegree, ready);
      output := output + [name];
    }
    NoneReady(plugins, ready, Elements(output));
    OutputFits(plugins, output);
    if |output| != |plugins| {
      var walk := StalledHasCycle(plugins, Elements(output));
      return Err(DependencyCycle);
    }
    OrderRulesOutFailure(plugins, output);
    return Ok(output);
  }

  /** There is one least order: the result does not depend on how ties are met. */
  lemma LeastOrderIsUnique(plugins: Plugins, a: seq<Name>, b: seq<Name>)
    requires IsLoadOrder(plugins, a) && IsLoadOrder(plugins, b)
    requires forall t :: IsLoadOrder(plugins, t) ==> LexAtMost(a, t)
    requires forall t :: IsLoadOrder(plugins, t) ==> LexAtMost(b, t)
    ensures a == b
  {
    DistinctSize(a);
    DistinctSize(b);
    assert LexAtMost(a, b) && LexAtMost(b, a);
    if a != b {
      var i: nat :| FirstDifferenceBelow(a, b, i);
      assert forall j: nat :: !FirstDifferenceBelow(b, a, j);
    }
  }

  /** A dependency is unusable if it is unknown or the plugin itself. */
  lemma ValidExactly(plugins: Plugins)
    ensures ValidDependencies(plugins) <==>
      forall n :: n in plugins ==> forall i :: 0 <= i < |plugins[n]| ==> plugins[n][i] in plugins && plugins[n][i] != n
  {
    forall n | n in plugins
      ensures ValidFor(plugins, n) <==>
        forall i :: 0 <= i < |plugins[n]| ==> plugins[n][i] in plugins && plugins[n][i] != n
    {
      ElementsWithin(plugins[n], plugins.Keys - {n});
    }
  }

  /** A load order lists exactly the plugins, no two alike, and before each of them all it depends on. */
  lemma OrderExactly(plugins: Plugins, order: seq<Name>)
    ensures IsLoadOrder(plugins, order) <==>
      && (forall n :: n in order <==> n in plugins)
      && (forall i, j :: 0 <= i < j < |order| ==> order[i] != order[j])
      && (forall i :: 0 <= i < |order| && order[i] in plugins ==> FollowsNeeds(plugins, order, i))
  {
    SameMembers(order, plugins.Keys);
    forall i | 0 <= i < |order| && order[i] in plugins
      ensures Needs(plugins, order[i]) <= Elements(order[..i]) <==> FollowsNeeds(plugins, order, i)
    {
      ElementsWithin(plugins[order[i]], Elements(order[..i]));
    }
  }

  lemma SameMembers(order: seq<Name>, names: set<Name>)
    ensures Elements(order) == names <==> forall n :: n in order <==> n in names
    ensures Elements(order) == names ==> forall i :: 0 <= i < |order| ==> order[i] in names
  {
    if forall n :: n in order <==> n in names {
      assert Elements(order) == names;
    } else {
      var n :| (n in order) != (n in names);
      assert (n in Elements(order)) != (n in names);
    }
  }

  ghost predicate FollowsNeeds(plugins: Plugins, order: seq<Name>, i: nat)
    requires i < |order| && order[i] in plugins
  {
    var needs := plugins[order[i]];
    forall k :: 0 <= k < |needs| ==> needs[k] in order[..i]
  }

  /** Two orders compare at the first place where they differ. */
  lemma LexExactly(a: seq<Name>, b: seq<Name>)
    ensures LexAtMost(a, b) <==>
      a <= b || exists k :: 0 <= k < |a| && k < |b| && a[..k] == b[..k] && a[k] < b[k]
  {
    FirstDifferenceExactly(a, b);
  }

  /** The `indegree` and `dependents` tables, or the news that a dependency is unusable. */
  method CountDependencies(plugins: Plugins)
    returns (valid: bool, indegree: map<Name, int>, dependents: map<Name, seq<Name>>)
    ensures valid <==> ValidDependencies(plugins)
    ensures valid ==> Counted(plugins, indegree, {})
    ensures valid ==> Indexed(plugins, dependents, plugins.Keys)
  {
    indegree := map n | n in plugins :: 0;
    dependents := map n | n in plugins :: [];
    var rest := plugins.Keys;
    ghost var done := {};
    while rest != {}
      invariant rest == plugins.Keys - done && done <= plugins.Keys
      invariant PartlyCounted(plugins, indegree, dependents, done)
      decreases |rest|
    {
      ghost var witnessed := SomeMember(rest);
      var name :| name in rest;
      valid, indegree, dependents := CountOne(plugins, name, done, indegree, dependents);
      if !valid {
        return;
      }
      TakeOne(plugins.Keys, done, rest, name);
      rest := rest - {name};
      done := done + {name};
    }
    valid := true;
    AllCounted(plugins, indegree, dependents, done);
  }

  /** The tables once the plugins in `done` have been counted. */
  ghost predicate PartlyCounted(plugins: Plugins, indegree: map<Name, int>,
                                dependents: map<Name, seq<Name>>, done: set<Name>) {
    && done <= plugins.Keys == indegree.Keys
    && (forall n :: n in done ==> ValidFor(plugins, n))
    && (forall n :: n in plugins ==> indegree[n] == if n in done then |Needs(plugins, n)| else 0)
    && Indexed(plugins, dependents, done)
  }

  lemma AllCounted(plugins: Plugins, indegree: map<Name, int>, dependents: map<Name, seq<Name>>, done: set<Name>)
    requires PartlyCounted(plugins, indegree, dependents, done) && plugins.Keys - done == {}
    ensures ValidDependencies(plugins) && Counted(plugins, indegree, {}) && Indexed(plugins, dependents, plugins.Keys)
  {
    EmptyDifference(plugins.Keys, done);
    forall n | n in plugins
      ensures indegree[n] == |Needs(plugins, n) - {}|
    {
      assert Needs(plugins, n) - {} == Needs(plugins, n);
    }
  }

  method CountOne(plugins: Plugins, name: Name, ghost done: set<Name>,
                  indegree0: map<Name, int>, dependents0: map<Name, seq<Name>>)
    returns (valid: bool, indegree: map<Name, int>, dependents: map<Name, seq<Name>>)
    requires name in plugins && name !in done
    requires PartlyCounted(plugins, indegree0, dependents0, done)
    ensures valid <==> ValidFor(plugins, name)
    ensures valid ==> PartlyCounted(plugins, indegree, dependents, done + {name})
  {
    valid, indegree, dependents := CountNeeds(plugins, name, indegree0, dependents0);
    if valid {
      OneCounted(plugins, name, done, indegree0, dependents0, indegree, dependents);
    }
  }

  /** The inner loop of the counting pass, for one plugin. */
  method CountNeeds(plugins: Plugins, name: Name, indegree0: map<Name, int>, dependents0: map<Name, seq<Name>>)
    returns (valid: bool, indegree: map<Name, int>, dependents: map<Name, seq<Name>>)
    requires name in plugins && indegree0.Keys == dependents0.Keys == plugins.Keys && indegree0[name] == 0
    ensures valid <==> ValidFor(plugins, name)
    ensures valid ==> indegree == indegree0[name := |Needs(plugins, name)|]
    ensures valid ==> Extended(dependents0, dependents, name, Needs(plugins, name))
  {
    indegree, dependents := indegree0, dependents0;
    var needs := Needs(plugins, name);
    var rest := needs;
    ghost var handled := {};
    assert indegree0 == indegree0[name := 0];
    while rest != {}
      invariant rest == needs - handled && handled <= needs && handled <= plugins.Keys - {name}
      invariant indegree == indegree0[name := |handled|]
      invariant Extended(dependents0, dependents, name, handled)
      decreases |rest|
    {
      ghost var witnessed := SomeMember(rest);
      var dependency :| dependency in rest;
      if dependency !in plugins || dependency == name {
        return false, indegree, dependents;
      }
      OneExtended(dependents0, dependents, name, handled, dependency);
      TakeOne(needs, handled, rest, dependency);
      UpdatedTwice(indegree0, name, |handled|, |handled| + 1);
      indegree := indegree[name := indegree[name] + 1];
      dependents := dependents[dependency := dependents[dependency] + [name]];
      rest := rest - {dependency};
      handled := handled + {dependency};
    }
    EmptyDifference(needs, handled);
    assert handled == needs;
    return true, indegree, dependents;
  }

  lemma UpdatedTwice(m: map<Name, int>, k: Name, a: int, b: int)
    ensures m[k := a][k := b] == m[k := b]
  {
  }

  lemma OneExtended(old0: map<Name, seq<Name>>, new0: map<Name, seq<Name>>, name: Name, handled: set<Name>,
                    dependency: Name)
    requires Extended(old0, new0, name, handled) && dependency in old0 && dependency !in handled
    ensures Extended(old0, new0[dependency := new0[dependency] + [name]], name, handled + {dependency})
  {
  }

  lemma OneCounted(plugins: Plugins, name: Name, done: set<Name>, indegree0: map<Name, int>,
                   dependents0: map<Name, seq<Name>>, indegree: map<Name, int>, dependents: map<Name, seq<Name>>)
    requires name in plugins && name !in done && ValidFor(plugins, name)
    requires PartlyCounted(plugins, indegree0, dependents0, done)
    requires indegree == indegree0[name := |Needs(plugins, name)|]
    requires Extended(dependents0, dependents, name, Needs(plugins, name))
    ensures PartlyCounted(plugins, indegree, dependents, done + {name})
  {
    IndexedGrows(plugins, name, done, dependents0, dependents);
  }

  ghost predicate Extended(old0: map<Name, seq<Name>>, new0: map<Name, seq<Name>>, name: Name, handled: set<Name>) {
    && new0.Keys == old0.Keys
    && forall d :: d in old0 ==> new0[d] == if d in handled then old0[d] + [name] else old0[d]
  }

  ghost function NeededBy(plugins: Plugins, d: Name, names: set<Name>): set<Name> {
    set n | n in plugins && n in names && d in Needs(plugins, n)
  }

  /** `dependents[d]` lists, once each, the plugins of `names` that depend on `d`. */
  ghost predicate Indexed(plugins: Plugins, dependents: map<Name, seq<Name>>, names: set<Name>) {
    && dependents.Keys == plugins.Keys
    && forall d :: d in plugins ==>
      Distinct(dependents[d]) && Elements(dependents[d]) == NeededBy(plugins, d, names)
  }

  lemma IndexedGrows(plugins: Plugins, name: Name, done: set<Name>,
                     old0: map<Name, seq<Name>>, new0: map<Name, seq<Name>>)
    requires name in plugins && name !in done
    requires Indexed(plugins, old0, done)
    requires Extended(old0, new0, name, Needs(plugins, name))
    ensures Indexed(plugins, new0, done + {name})
  {
    forall d | d in plugins
      ensures Distinct(new0[d]) && Elements(new0[d]) == NeededBy(plugins, d, done + {name})
    {
      ElementsAppend(old0[d], name);
      assert name !in Elements(old0[d]);
    }
  }

  /** `indegree[n]` counts the dependencies of `n` that are not loaded yet. */
  ghost predicate Counted(plugins: Plugins, indegree: map<Name, int>, loaded: set<Name>) {
    && indegree.Keys == plugins.Keys
    && forall n :: n in plugins ==> indegree[n] == |Needs(plugins, n) - loaded|
  }

  ghost predicate IsReady(plugins: Plugins, n: Name, loaded: set<Name>) {
    n in plugins && n !in loaded && Needs(plugins, n) <= loaded
  }

  /** The heap holds, once each, the plugins not loaded whose dependencies all are. */
  ghost predicate Queued(plugins: Plugins, ready: multiset<Name>, loaded: set<Name>) {
    forall n :: ready[n] == if IsReady(plugins, n, loaded) then 1 else 0
  }

  method ReadyAtStart(plugins: Plugins, indegree: map<Name, int>) returns (ready: multiset<Name>)
    requires Counted(plugins, indegree, {})
    ensures Queued(plugins, ready, {})
  {
    var free := set n | n in indegree && indegree[n] == 0;
    ready := multiset(free);
    forall n | n in plugins
      ensures indegree[n] == 0 <==> IsReady(plugins, n, {})
    {
      CountIsZero(plugins, n, {});
    }
  }

  method PopReady(plugins: Plugins, ready: multiset<Name>, ghost loaded: set<Name>)
    returns (name: Name, rest: multiset<Name>)
    requires Queued(plugins, ready, loaded) && ready != multiset{}
    ensures IsReady(plugins, name, loaded)
    ensures forall n :: IsReady(plugins, n, loaded) ==> name <= n
    ensures rest + multiset{name} == ready
  {
    name, rest := Heap.Pop(ready, (x: Name, y: Name) => x <= y);
    assert ready[name] == 1;
    forall n | IsReady(plugins, n, loaded)
      ensures name <= n
    {
      assert ready[n] == 1;
      assert n in ready;
    }
  }

  /** Every dependent of `name` misses one dependency less. */
  method Release(plugins: Plugins, dependents: seq<Name>, name: Name, ghost loaded: set<Name>,
                 indegree0: map<Name, int>, ready0: multiset<Name>)
    returns (indegree: map<Name, int>, ready: multiset<Name>)
    requires IsReady(plugins, name, loaded)
    requires Distinct(dependents) && Elements(dependents) == NeededBy(plugins, name, plugins.Keys)
    requires Counted(plugins, indegree0, loaded)
    requires Queued(plugins, ready0 + multiset{name}, loaded)
    requires forall n :: n in loaded ==> n in plugins && Needs(plugins, n) <= loaded
    ensures Counted(plugins, indegree, loaded + {name})
    ensures Queued(plugins, ready, loaded + {name})
  {
    indegree, ready := Tell(dependents, indegree0, ready0);
    ReleasedIsCounted(plugins, name, loaded, indegree0, indegree);
    ReleasedIsQueued(plugins, name, loaded, indegree0, ready0, ready);
  }

  /** The inner loop of the main pass. */
  method Tell(dependents: seq<Name>, indegree0: map<Name, int>, ready0: multiset<Name>)
    returns (indegree: map<Name, int>, ready: multiset<Name>)
    requires Distinct(dependents) && Elements(dependents) <= indegree0.Keys
    ensures Lowered(indegree0, indegree, Elements(dependents))
    ensures Woken(indegree0, ready0, ready, Elements(dependents))
  {
    indegree, ready := indegree0, ready0;
    ghost var told := {};
    for j := 0 to |dependents|
      invariant told == Elements(dependents[..j])
      invariant Lowered(indegree0, indegree, told) && Woken(indegree0, ready0, ready, told)
    {
      var dependent := dependents[j];
      NextElement(dependents, j);
      OneTold(indegree0, ready0, indegree, ready, told, dependent);
      indegree := indegree[dependent := indegree[dependent] - 1];
      if indegree[dependent] == 0 {
        ready := ready + multiset{dependent};
      }
      told := told + {dependent};
    }
    assert dependents[..|dependents|] == dependents;
  }

  lemma NextElement(names: seq<Name>, j: nat)
    requires Distinct(names) && j < |names|
    ensures Elements(names[..j + 1]) == Elements(names[..j]) + {names[j]}
    ensures names[j] in Elements(names) && names[j] !in Elements(names[..j])
  {
    assert names[..j + 1] == names[..j] + [names[j]];
    ElementsAppend(names[..j], names[j]);
  }

  /** Those told have one dependency less to wait for. */
  ghost predicate Lowered(indegree0: map<Name, int>, indegree: map<Name, int>, told: set<Name>) {
    && indegree.Keys == indegree0.Keys
    && forall n :: n in indegree0 ==> indegree[n] == if n in told then indegree0[n] - 1 else indegree0[n]
  }

  lemma OneTold(indegree0: map<Name, int>, ready0: multiset<Name>, indegree: map<Name, int>, ready: multiset<Name>,
                told: set<Name>, dependent: Name)
    requires Lowered(indegree0, indegree, told) && Woken(indegree0, ready0, ready, told)
    requires dependent in indegree0 && dependent !in told
    ensures Lowered(indegree0, indegree[dependent := indegree[dependent] - 1], told + {dependent})
    ensures
      var woken := if indegree[dependent] == 1 then ready + multiset{dependent} else ready;
      Woken(indegree0, ready0, woken, told + {dependent})
  {
  }

  /** Those of `told` that missed one last dependency have been pushed. */
  ghost predicate Woken(indegree0: map<Name, int>, ready0: multiset<Name>, ready: multiset<Name>, told: set<Name>) {
    forall n ::
      var woken := n in told && n in indegree0 && indegree0[n] == 1;
      ready[n] == if woken then ready0[n] + 1 else ready0[n]
  }

  // ----- Proofs -----

  lemma CountIsZero(plugins: Plugins, n: Name, loaded: set<Name>)
    requires n in plugins
    ensures |Needs(plugins, n) - loaded| == 0 <==> Needs(plugins, n) <= loaded
  {
    EmptyDifference(Needs(plugins, n), loaded);
  }

  lemma OneLess(plugins: Plugins, n: Name, name: Name, loaded: set<Name>)
    requires n in plugins && name !in loaded
    ensures |Needs(plugins, n) - (loaded + {name})| ==
      |Needs(plugins, n) - loaded| - (if name in Needs(plugins, n) then 1 else 0)
  {
    if name in Needs(plugins, n) {
      assert Needs(plugins, n) - loaded == (Needs(plugins, n) - (loaded + {name})) + {name};
    } else {
      assert Needs(plugins, n) - loaded == Needs(plugins, n) - (loaded + {name});
    }
  }

  lemma ReleasedIsCounted(plugins: Plugins, name: Name, loaded: set<Name>,
                          indegree0: map<Name, int>, indegree: map<Name, int>)
    requires IsReady(plugins, name, loaded) && Counted(plugins, indegree0, loaded)
    requires Lowered(indegree0, indegree, NeededBy(plugins, name, plugins.Keys))
    ensures Counted(plugins, indegree, loaded + {name})
  {
    forall n | n in plugins
      ensures indegree[n] == |Needs(plugins, n) - (loaded + {name})|
    {
      OneLess(plugins, n, name, loaded);
    }
  }

  lemma ReleasedIsQueued(plugins: Plugins, name: Name, loaded: set<Name>, indegree0: map<Name, int>,
                         ready0: multiset<Name>, ready: multiset<Name>)
    requires IsReady(plugins, name, loaded) && Counted(plugins, indegree0, loaded)
    requires Queued(plugins, ready0 + multiset{name}, loaded)
    requires forall n :: n in loaded ==> n in plugins && Needs(plugins, n) <= loaded
    requires Woken(indegree0, ready0, ready, NeededBy(plugins, name, plugins.Keys))
    ensures Queued(plugins, ready, loaded + {name})
  {
    forall n
      ensures ready[n] == if IsReady(plugins, n, loaded + {name}) then 1 else 0
    {
      assert (ready0 + multiset{name})[n] == if n == name then ready0[n] + 1 else ready0[n];
      if n in plugins {
        CountIsZero(plugins, n, loaded);
        CountIsZero(plugins, n, loaded + {name});
        OneLess(plugins, n, name, loaded);
      }
    }
  }

  lemma AppendLoaded(plugins: Plugins, output: seq<Name>, name: Name)
    requires Distinct(output) && Closed(plugins, output)
    requires IsReady(plugins, name, Elements(output))
    ensures Distinct(output + [name]) && Closed(plugins, output + [name])
    ensures Elements(output + [name]) == Elements(output) + {name}
    ensures forall n :: n in Elements(output) ==> n in plugins && Needs(plugins, n) <= Elements(output)
  {
    ElementsAppend(output, name);
    var next := output + [name];
    forall i | 0 <= i < |next|
      ensures next[i] in plugins && Needs(plugins, next[i]) <= Elements(next[..i])
    {
      assert next[..i] == output[..i];
      assert i == |output| ==> output[..i] == output;
    }
    forall n | n in Elements(output)
      ensures n in plugins && Needs(plugins, n) <= Elements(output)
    {
      var i := IndexOf(output, n);
      assert Elements(output[..i]) <= Elements(output);
    }
  }

  /** Where an order has agreed with the output so far, its next plugin was in the heap as well. */
  lemma LeastReadyFirst(plugins: Plugins, output: seq<Name>, name: Name)
    requires forall t :: IsLoadOrder(plugins, t) ==> LexAtMost(output, t)
    requires IsReady(plugins, name, Elements(output))
    requires forall n :: IsReady(plugins, n, Elements(output)) ==> name <= n
    ensures forall t :: IsLoadOrder(plugins, t) ==> LexAtMost(output + [name], t)
  {
    forall t | IsLoadOrder(plugins, t)
      ensures LexAtMost(output + [name], t)
    {
      if output <= t {
        ExtendPrefix(plugins, output, name, t);
      } else {
        var j: nat :| FirstDifferenceBelow(output, t, j);
        assert FirstDifferenceBelow(output + [name], t, j);
      }
    }
  }

  lemma ExtendPrefix(plugins: Plugins, output: seq<Name>, name: Name, t: seq<Name>)
    requires IsLoadOrder(plugins, t) && output <= t
    requires IsReady(plugins, name, Elements(output))
    requires forall n :: IsReady(plugins, n, Elements(output)) ==> name <= n
    ensures LexAtMost(output + [name], t)
  {
    var k := |output|;
    var at := IndexOf(t, name);
    assert t[..k] == output;
    forall i | 0 <= i < k
      ensures t[i] in Elements(output)
    {
      assert t[i] == output[i];
    }
    forall x | x in Elements(output)
      ensures x != t[k]
    {
      var i := IndexOf(output, x);
      assert t[i] == x;
    }
    assert IsReady(plugins, t[k], Elements(output));
    if name == t[k] {
      assert output + [name] <= t;
    } else {
      assert FirstDifferenceBelow(output + [name], t, k);
    }
  }

  lemma NoneReady(plugins: Plugins, ready: multiset<Name>, loaded: set<Name>)
    requires Queued(plugins, ready, loaded) && ready == multiset{}
    ensures forall n :: n in plugins && n !in loaded ==> !(Needs(plugins, n) <= loaded)
  {
    forall n | n in plugins && n !in loaded
      ensures !(Needs(plugins, n) <= loaded)
    {
      assert ready[n] == 0;
    }
  }

  lemma OutputFits(plugins: Plugins, output: seq<Name>)
    requires Distinct(output) && Closed(plugins, output)
    ensures Elements(output) <= plugins.Keys
    ensures |output| == |plugins| <==> Elements(output) == plugins.Keys
  {
    assert |plugins| == |plugins.Keys|;
    DistinctFits(output, plugins.Keys);
    DistinctSize(output);
  }

  lemma CloseWalk(plugins: Plugins, walk: seq<Name>, i: nat) returns (cycle: seq<Name>)
    requires i < |walk| && IsChain(plugins, walk)
    requires walk[|walk| - 1] in plugins && walk[i] in Needs(plugins, walk[|walk| - 1])
    ensures IsCycle(plugins, cycle)
  {
    cycle := walk[i..] + [walk[i]];
  }

  lemma ExtendWalk(plugins: Plugins, walk: seq<Name>, next: Name)
    requires walk != [] && IsChain(plugins, walk)
    requires walk[|walk| - 1] in plugins && next in Needs(plugins, walk[|walk| - 1])
    ensures IsChain(plugins, walk + [next])
  {
  }

  /** Follow unmet dependencies until a plugin repeats: the walk from it back to it is a cycle. */
  lemma {:induction false} WalkToCycle(plugins: Plugins, stalled: set<Name>, walk: seq<Name>) returns (cycle: seq<Name>)
    requires walk != [] && Distinct(walk) && Elements(walk) <= stalled
    requires IsChain(plugins, walk)
    requires forall n :: n in stalled ==> n in plugins && Needs(plugins, n) * stalled != {}
    ensures IsCycle(plugins, cycle)
    decreases |stalled| - |walk|
  {
    DistinctFits(walk, stalled);
    var last := walk[|walk| - 1];
    assert last in Elements(walk);
    var next := SomeMember(Needs(plugins, last) * stalled);
    ElementsAppend(walk, next);
    if next in Elements(walk) {
      var i := IndexOf(walk, next);
      cycle := CloseWalk(plugins, walk, i);
    } else {
      DistinctFits(walk + [next], stalled);
      ExtendWalk(plugins, walk, next);
      cycle := WalkToCycle(plugins, stalled, walk + [next]);
    }
  }

  /** A stalled heap means a real cycle. */
  lemma StalledHasCycle(plugins: Plugins, loaded: set<Name>) returns (cycle: seq<Name>)
    requires ValidDependencies(plugins)
    requires loaded <= plugins.Keys && loaded != plugins.Keys
    requires forall n :: n in plugins && n !in loaded ==> !(Needs(plugins, n) <= loaded)
    ensures IsCycle(plugins, cycle)
  {
    var stalled := plugins.Keys - loaded;
    forall n | n in stalled
      ensures n in plugins && Needs(plugins, n) * stalled != {}
    {
      assert ValidFor(plugins, n);
      var d := NotSubset(Needs(plugins, n), loaded);
      assert d in Needs(plugins, n) * stalled;
    }
    var first := NotSubset(plugins.Keys, loaded);
    cycle := WalkToCycle(plugins, stalled, [first]);
  }

  /** A plugin comes after what it depends on, so positions in an order fall along a walk. */
  lemma {:induction false} PositionsFall(plugins: Plugins, order: seq<Name>, walk: seq<Name>, start: nat)
    returns (end: nat)
    requires IsLoadOrder(plugins, order) && IsChain(plugins, walk)
    requires walk != [] && start < |order| && order[start] == walk[0]
    ensures end < |order| && order[end] == walk[|walk| - 1]
    ensures |walk| > 1 ==> end < start
  {
    if |walk| == 1 {
      end := start;
    } else {
      assert walk[1] in Needs(plugins, walk[0]);
      var next := IndexOf(order[..start], walk[1]);
      end := PositionsFall(plugins, order, walk[1..], next);
    }
  }

  /** An order exists only where the dependencies are valid and acyclic. */
  lemma OrderRulesOutFailure(plugins: Plugins, order: seq<Name>)
    requires IsLoadOrder(plugins, order)
    ensures ValidDependencies(plugins)
    ensures !HasCycle(plugins)
  {
    forall n | n in plugins
      ensures ValidFor(plugins, n)
    {
      var i := IndexOf(order, n);
      assert Elements(order[..i]) <= Elements(order) - {n};
    }
    forall walk | IsChain(plugins, walk) && |walk| > 1
      ensures walk[0] != walk[|walk| - 1]
    {
      assert walk[0] in plugins && walk[1] in Needs(plugins, walk[0]);
      var start := IndexOf(order, walk[0]);
      var end := PositionsFall(plugins, order, walk, start);
    }
  }
}
