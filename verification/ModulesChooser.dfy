/** Resolution of module dependencies with alternatives and cycles:
  3rdParty/botan3130/configure.py, lines 2636-2702.
*/
module ModulesChoice {

  type Name = string

  /** For every module its dependencies, each the set of its alternatives. */
  type DependencyTable = map<Name, seq<set<Name>>>

  /** Every dependency of m has an alternative among the modules in s. */
  ghost predicate Met(table: DependencyTable, m: Name, s: set<Name>)
    requires m in table
  {
    forall i :: 0 <= i < |table[m]| ==> HasAlternative(table[m][i], s)
  }

  ghost predicate HasAlternative(choices: set<Name>, s: set<Name>) {
    exists c :: c in choices && c in s
  }

  /** The modules of s, together with those already loaded, need nothing else. */
  ghost predicate SelfSufficient(available: set<Name>, table: DependencyTable, loaded: set<Name>, s: set<Name>)
    requires available <= table.Keys
  {
    s <= available && forall m :: m in s ==> Met(table, m, s + loaded)
  }

  /** Some self-sufficient set of available modules contains m. */
  ghost predicate Resolvable(available: set<Name>, table: DependencyTable, loaded: set<Name>, m: Name)
    requires available <= table.Keys
  {
    exists s: set<Name> :: m in s && SelfSufficient(available, table, loaded, s)
  }

  /** "a" needs "b" or "c", "b" needs "a", and "c" needs "d", which is not available: "a" and "b" are resolvable, in a
    cycle, "c" is only when "d" is loaded already. */
  lemma CycleAndGap(table: DependencyTable)
    requires table == map["a" := [{"b", "c"}], "b" := [{"a"}], "c" := [{"d"}]]
    ensures {"a", "b", "c"} <= table.Keys
    ensures Resolvable({"a", "b", "c"}, table, {}, "a") && Resolvable({"a", "b", "c"}, table, {}, "b")
    ensures !Resolvable({"a", "b", "c"}, table, {}, "c") && Resolvable({"a", "b", "c"}, table, {"d"}, "c")
  {
    var available: set<Name>, none: set<Name> := {"a", "b", "c"}, {};
    assert HasAlternative({"b", "c"}, {"a", "b"} + none) by {
      assert "b" in {"b", "c"} && "b" in {"a", "b"} + none;
    }
    assert HasAlternative({"a"}, {"a", "b"} + none) by {
      assert "a" in {"a"} && "a" in {"a", "b"} + none;
    }
    assert SelfSufficient(available, table, none, {"a", "b"});
    assert HasAlternative({"d"}, {"c"} + {"d"}) by {
      assert "d" in {"d"} && "d" in {"c"} + {"d"};
    }
    assert SelfSufficient(available, table, {"d"}, {"c"});
    forall s: set<Name> ensures !("c" in s && SelfSufficient(available, table, none, s)) {
      if "c" in s && SelfSufficient(available, table, none, s) {
        OnlyAlternative(available, table, none, s, "c", "d");
      }
    }
  }

  lemma OnlyAlternative(available: set<Name>, table: DependencyTable, loaded: set<Name>, s: set<Name>, m: Name, c: Name)
    requires available <= table.Keys && SelfSufficient(available, table, loaded, s) && m in s && table[m] == [{c}]
    ensures c in s + loaded
  {
    assert Met(table, m, s + loaded);
    assert HasAlternative(table[m][0], s + loaded);
  }

  lemma MetMonotone(table: DependencyTable, m: Name, s: set<Name>, t: set<Name>)
    requires m in table && Met(table, m, s) && s <= t
    ensures Met(table, m, t)
  {
    forall i | 0 <= i < |table[m]| ensures HasAlternative(table[m][i], t) {
      assert HasAlternative(table[m][i], s);
      var c :| c in table[m][i] && c in s;
      assert c in t;
    }
  }

  lemma LoadedMonotone(available: set<Name>, table: DependencyTable, loaded: set<Name>, more: set<Name>, s: set<Name>)
    requires available <= table.Keys && loaded <= more && SelfSufficient(available, table, loaded, s)
    ensures SelfSufficient(available, table, more, s)
  {
    forall m | m in s ensures Met(table, m, s + more) {
      MetMonotone(table, m, s + loaded, s + more);
    }
  }

  /** What a call may still assume about the modules it has collected: all but `module` itself and
    those loaded beforehand have their dependencies met. */
  ghost predicate Collected(available: set<Name>, table: DependencyTable, loaded: set<Name>, module_: Name, s: set<Name>)
    requires available <= table.Keys
  {
    && loaded + {module_} <= s <= loaded + available
    && forall m :: m in s && m !in loaded && m != module_ ==> Met(table, m, s)
  }

  /** Succeeds exactly when the module is resolvable on top of the loaded ones, in whatever order the
    alternatives are tried; the result then meets the dependencies of everything it adds. */
  method ResolveDependencies(available: set<Name>, table: DependencyTable, module_: Name, loaded: set<Name>)
    returns (ok: bool, modules: set<Name>)
    requires available <= table.Keys
    ensures ok <==> Resolvable(available, table, loaded, module_)
    ensures ok ==> Collected(available, table, loaded, module_, modules) && Met(table, module_, modules)
    decreases available - (loaded + {module_})
  {
    if module_ !in available {
      return false, {};
    }
    var current := loaded + {module_};
    var dependencies := table[module_];
    var i := 0;
    while i < |dependencies|
      invariant 0 <= i <= |dependencies|
      invariant Collected(available, table, loaded, module_, current)
      invariant forall k :: 0 <= k < i ==> HasAlternative(dependencies[k], current)
    {
      var met;
      met, current := MeetDependency(available, table, module_, loaded, current, dependencies[i]);
      if !met {
        AnotherWay(available, table, loaded, current, module_, i);
        return false, {};
      }
      i := i + 1;
    }
    WayFound(available, table, loaded, module_, current);
    return true, current;
  }

  /** Tries the available alternatives of one dependency until one resolves. */
  method MeetDependency(available: set<Name>, table: DependencyTable, module_: Name, ghost loaded: set<Name>,
                        current: set<Name>, choices: set<Name>)
    returns (met: bool, extended: set<Name>)
    requires available <= table.Keys && module_ in available
    requires Collected(available, table, loaded, module_, current)
    ensures current <= extended && Collected(available, table, loaded, module_, extended)
    ensures met ==> HasAlternative(choices, extended)
    ensures !met ==> extended == current && !HasAlternative(choices, current)
    ensures !met ==> forall c :: c in choices && c in available ==> !Resolvable(available, table, current, c)
    decreases available - (loaded + {module_}), 0
  {
    extended := current;
    if choices * current != {} {
      met := true;
      var c :| c in choices * current;
      assert c in choices && c in current;
      return;
    }
    var untried := choices * available;
    met := false;
    while untried != {}
      invariant untried <= choices * available
      invariant forall c :: c in choices && c in available && c !in untried ==> !Resolvable(available, table, current, c)
    {
      var choice :| choice in untried;
      assert choice !in choices * current;
      assert choice in available - (loaded + {module_});
      assert choice !in available - (current + {choice});
      var ok, modules := ResolveDependencies(available, table, choice, current);
      if ok {
        met := true;
        extended := current + {choice} + modules;
        ExtendCollected(available, table, loaded, module_, current, choice, modules);
        assert extended == modules;
        assert choice in choices && choice in extended;
        return;
      }
      untried := untried - {choice};
    }
  }

  lemma ExtendCollected(available: set<Name>, table: DependencyTable, loaded: set<Name>, module_: Name,
                        current: set<Name>, choice: Name, modules: set<Name>)
    requires available <= table.Keys && module_ in available && choice in available
    requires Collected(available, table, loaded, module_, current)
    requires Collected(available, table, current, choice, modules) && Met(table, choice, modules)
    ensures Collected(available, table, loaded, module_, modules)
  {
    forall m | m in modules && m !in loaded && m != module_ ensures Met(table, m, modules) {
      if m in current {
        MetMonotone(table, m, current, modules);
      }
    }
  }

  /** A resolvable module has, for each dependency not met yet, an alternative that is resolvable too. */
  lemma AnotherWay(available: set<Name>, table: DependencyTable, loaded: set<Name>, current: set<Name>, module_: Name, i: nat)
    requires available <= table.Keys && module_ in available && i < |table[module_]| && loaded <= current
    requires !HasAlternative(table[module_][i], current)
    ensures Resolvable(available, table, loaded, module_) ==>
              exists c :: c in table[module_][i] && c in available && Resolvable(available, table, current, c)
  {
    if Resolvable(available, table, loaded, module_) {
      var s :| module_ in s && SelfSufficient(available, table, loaded, s);
      assert HasAlternative(table[module_][i], s + loaded);
      var c :| c in table[module_][i] && c in s + loaded;
      LoadedMonotone(available, table, loaded, current, s);
      assert c in s;
    }
  }

  /** What has been collected on success is itself the self-sufficient set. */
  lemma WayFound(available: set<Name>, table: DependencyTable, loaded: set<Name>, module_: Name, current: set<Name>)
    requires available <= table.Keys && module_ in available
    requires Collected(available, table, loaded, module_, current) && Met(table, module_, current)
    ensures Resolvable(available, table, loaded, module_)
  {
    var s := current - loaded + {module_};
    forall m | m in s ensures Met(table, m, s + loaded) {
      assert m == module_ || Met(table, m, current);
      MetMonotone(table, m, current, s + loaded);
    }
    assert SelfSufficient(available, table, loaded, s);
  }

  /** Self-sufficient sets can be joined. */
  lemma JoinSelfSufficient(available: set<Name>, table: DependencyTable, s: set<Name>, t: set<Name>)
    requires available <= table.Keys
    requires SelfSufficient(available, table, {}, s) && SelfSufficient(available, table, {}, t)
    ensures SelfSufficient(available, table, {}, s + t)
  {
    forall m | m in s + t ensures Met(table, m, s + t + {}) {
      MetMonotone(table, m, if m in s then s + {} else t + {}, s + t + {});
    }
  }

  class ModulesChooser {
    const table: DependencyTable
    var toLoad: set<Name>
    var maybeDep: set<Name>
    var dependencyFailure: set<Name>

    constructor (table: DependencyTable, toLoad: set<Name>, maybeDep: set<Name>)
      ensures this.table == table && this.toLoad == toLoad && this.maybeDep == maybeDep
    {
      this.table, this.toLoad, this.maybeDep := table, toLoad, maybeDep;
      dependencyFailure := {};
    }

    /** Keeps exactly the requested modules that are resolvable, with a self-sufficient set around them. */
    method ResolveDependenciesForAllModules()
      requires toLoad + maybeDep <= table.Keys
      modifies this
      ensures SelfSufficient(old(toLoad + maybeDep), table, {}, toLoad)
      ensures forall m :: m in old(toLoad) ==> (m in toLoad <==> Resolvable(old(toLoad + maybeDep), table, {}, m))
      ensures maybeDep == old(maybeDep) - toLoad
      ensures dependencyFailure == old(dependencyFailure) + (old(toLoad) - toLoad)
    {
      var available := toLoad + maybeDep;
      var successfullyLoaded: set<Name> := {};
      var untried := toLoad;
      while untried != {}
        invariant untried <= toLoad
        invariant SelfSufficient(available, table, {}, successfullyLoaded)
        invariant forall m :: m in toLoad && m !in untried ==>
                    (m in successfullyLoaded <==> Resolvable(available, table, {}, m))
        modifies {}
      {
        var modname :| modname in untried;
        var ok, modules := ResolveDependencies(available, table, modname, {});
        if ok {
          AllMet(available, table, modname, modules);
          JoinSelfSufficient(available, table, successfullyLoaded, {modname} + modules);
          successfullyLoaded := successfullyLoaded + ({modname} + modules);
        }
        untried := untried - {modname};
        forall m | m in successfullyLoaded ensures Resolvable(available, table, {}, m) {
        }
      }
      dependencyFailure := dependencyFailure + (toLoad - successfullyLoaded);
      toLoad := successfullyLoaded;
      maybeDep := maybeDep - successfullyLoaded;
    }

    static lemma AllMet(available: set<Name>, table: DependencyTable, m: Name, modules: set<Name>)
      requires available <= table.Keys && Collected(available, table, {}, m, modules) && m in available && Met(table, m, modules)
      ensures SelfSufficient(available, table, {}, {m} + modules)
    {
      assert {m} + modules + {} == modules;
    }
  }
}
