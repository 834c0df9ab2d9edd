/** Loading modules with their dependencies and unloading them with their dependants. */
module DllRegistryModule {
  import opened Bits

  type Name = string

  /** The modules that can be loaded, each with its dependencies in the order of the set; the modules whose
      load throws; and those with objects that refer to them. */
  datatype Env = Env(available: map<Name, seq<Name>>, broken: set<Name>, busy: set<Name>)

  /** The loaded modules, and for each module the recorded reverse dependencies in order. Recording one of a
      module that is not available makes an entry without dependencies for it. */
  datatype Registry = Registry(loaded: set<Name>, rdeps: map<Name, seq<Name>>) {
    function Rdeps(name: Name): seq<Name> { if name in rdeps then rdeps[name] else [] }

    function AddReverse(name: Name, dependant: Name): Registry {
      Registry(loaded, rdeps[name := Inserted(Rdeps(name), dependant)])
    }
  }

  /** The outcome of a call: the registry, and the value returned. */
  datatype Result = Result(registry: Registry, ok: bool)

  predicate Less(a: Name, b: Name) {
    if b == "" then false
    else if a == "" then true
    else a[0] < b[0] || (a[0] == b[0] && Less(a[1..], b[1..]))
  }

  /** The ordered set s with n added. */
  function Inserted(s: seq<Name>, n: Name): (r: seq<Name>)
    ensures forall x :: x in r <==> x in s || x == n
  {
    if s == [] then [n]
    else if s[0] == n then s
    else if Less(n, s[0]) then [n] + s
    else
      assert s == [s[0]] + s[1..];
      [s[0]] + Inserted(s[1..], n)
  }

  /** The names agree below i, where a ends or has the smaller character. */
  predicate Below(a: Name, b: Name, i: nat) {
    i <= |a| && i < |b| && a[..i] == b[..i] && (i < |a| ==> a[i] < b[i])
  }

  /** The order is lexicographic, a name before its extensions. */
  lemma {:induction false} LessIff(a: Name, b: Name)
    ensures Less(a, b) <==> exists i: nat :: Below(a, b, i)
    decreases |a|
  {
    if a == "" || b == "" {
      if b != "" { assert Below(a, b, 0); }
    } else {
      LessIff(a[1..], b[1..]);
      if a[0] < b[0] { assert Below(a, b, 0); }
      if i: nat :| Below(a[1..], b[1..], i) && a[0] == b[0] {
        assert a[..i + 1] == [a[0]] + a[1..][..i] && b[..i + 1] == [b[0]] + b[1..][..i];
        assert Below(a, b, i + 1);
      }
      if i: nat :| Below(a, b, i) {
        if i > 0 {
          assert a[..i][0] == b[..i][0];
          assert a[1..][..i - 1] == a[..i][1..] == b[..i][1..] == b[1..][..i - 1];
          assert Below(a[1..], b[1..], i - 1);
        }
      }
    }
  }

  lemma {:induction false} LessTotal(a: Name, b: Name)
    ensures !Less(a, a) && (a == b || Less(a, b) || Less(b, a)) && !(Less(a, b) && Less(b, a))
    decreases |a|
  {
    if a != "" {
      LessTotal(a[1..], if b == "" then "" else b[1..]);
      if b != "" && a[0] == b[0] && a[1..] == b[1..] { assert a == [a[0]] + a[1..] && b == [b[0]] + b[1..]; }
    }
  }

  lemma {:induction false} LessTransitive(a: Name, b: Name, c: Name)
    requires Less(a, b) && Less(b, c)
    ensures Less(a, c)
    decreases |a|
  {
    if a != "" && a[0] == b[0] == c[0] { LessTransitive(a[1..], b[1..], c[1..]); }
  }

  /** In order and without repetition. */
  predicate Ascending(s: seq<Name>) {
    forall i, j :: 0 <= i < j < |s| ==> Less(s[i], s[j])
  }

  lemma {:induction false} InsertedAscends(s: seq<Name>, n: Name)
    requires Ascending(s)
    ensures Ascending(Inserted(s, n))
  {
    hide Less;
    if s != [] && s[0] != n {
      LessTotal(n, s[0]);
      InsertedAscends(s[1..], n);
      var r := Inserted(s, n);
      forall i, j | 0 <= i < j < |r| ensures Less(r[i], r[j]) {
        if Less(n, s[0]) {
          if i == 0 && j > 1 { LessTransitive(n, s[0], s[j - 1]); }
        } else if i == 0 {
          var x := r[j];
          assert x in Inserted(s[1..], n);
          if x != n { assert x in s[1..]; }
        }
      }
    }
  }

  // ---------------------------------------------------------------- the recursion guard

  predicate At(hay: string, needle: string, i: nat) {
    i + |needle| <= |hay| && hay[i..i + |needle|] == needle
  }

  /** The search of the guard: needle occurs somewhere in hay, across the borders of the names as well. */
  predicate Contains(hay: string, needle: string) {
    exists i: nat :: i <= |hay| && At(hay, needle, i)
  }

  lemma ContainsLast(hay: string, needle: string)
    ensures Contains(hay + needle, needle)
  {
    assert At(hay + needle, needle, |hay|);
  }

  lemma ContainsMore(hay: string, more: string, needle: string)
    requires Contains(hay, needle)
    ensures Contains(hay + more, needle)
  {
    var i: nat :| i <= |hay| && At(hay, needle, i);
    assert (hay + more)[i..i + |needle|] == hay[i..i + |needle|];
    assert At(hay + more, needle, i);
  }

  /** The available names that the guard would let through. */
  function Open(names: set<Name>, guard: string): set<Name> {
    set n | n in names && !Contains(guard, n)
  }

  lemma FewerOpen(names: set<Name>, guard: string, name: Name)
    requires name in names && !Contains(guard, name)
    ensures |Open(names, guard + name)| < |Open(names, guard)|
  {
    ContainsLast(guard, name);
    var a, b := Open(names, guard + name), Open(names, guard);
    forall n | n in a ensures n in b { if Contains(guard, n) { ContainsMore(guard, name, n); } }
    assert name in b && name !in a;
    SubsetCount(a, b - {name});
  }

  // ---------------------------------------------------------------- loading

  function Load(e: Env, r: Registry, name: Name, loading: string): (out: Result)
    ensures r.loaded <= out.registry.loaded
    decreases |Open(e.available.Keys, loading)|, 0
  {
    if Contains(loading, name) then Result(r, true)
    else if name in r.loaded then Result(r, true)
    else if name !in e.available then
      if name in r.rdeps && name !in e.broken then Result(Registry(r.loaded + {name}, r.rdeps), true) else Result(r, false)
    else
      FewerOpen(e.available.Keys, loading, name);
      var out := LoadAll(e, r, name, e.available[name], loading + name);
      if !out.ok || name in e.broken then Result(out.registry, false)
      else Result(Registry(out.registry.loaded + {name}, out.registry.rdeps), true)
  }

  /** Load the dependencies of a module one by one, recording it as their reverse dependency. */
  function LoadAll(e: Env, r: Registry, name: Name, deps: seq<Name>, loading: string): (out: Result)
    ensures r.loaded <= out.registry.loaded
    decreases |Open(e.available.Keys, loading)|, |deps|
  {
    if deps == [] then Result(r, true)
    else
      var n := |deps| - 1;
      var before := LoadAll(e, r, name, deps[..n], loading);
      if !before.ok then before
      else
        var last := Load(e, before.registry, deps[n], loading);
        if !last.ok then last else Result(last.registry.AddReverse(deps[n], name), true)
  }

  // ---------------------------------------------------------------- unloading

  function Unload(e: Env, r: Registry, name: Name, unloading: string): (out: Result)
    ensures out.registry.loaded <= r.loaded && out.registry.rdeps == r.rdeps
    decreases |Open(r.loaded, unloading)|, 0
  {
    if Contains(unloading, name) then Result(r, true)
    else if name !in r.loaded then Result(r, true)
    else if name in e.busy then Result(r, false)
    else
      FewerOpen(r.loaded, unloading, name);
      var out := UnloadAll(e, r, r.Rdeps(name), unloading + name);
      if !out.ok then out else Result(Registry(out.registry.loaded - {name}, out.registry.rdeps), true)
  }

  function UnloadAll(e: Env, r: Registry, names: seq<Name>, unloading: string): (out: Result)
    ensures out.registry.loaded <= r.loaded && out.registry.rdeps == r.rdeps
    decreases |Open(r.loaded, unloading)|, |names|
  {
    if names == [] then Result(r, true)
    else
      var n := |names| - 1;
      var before := UnloadAll(e, r, names[..n], unloading);
      if !before.ok then before
      else
        SubsetCount(Open(before.registry.loaded, unloading), Open(r.loaded, unloading));
        Unload(e, before.registry, names[n], unloading)
  }

  // ---------------------------------------------------------------- the invariant

  /** Loaded modules are available, their dependencies are loaded and list them as reverse dependencies. */
  predicate Closed(e: Env, r: Registry) {
    forall m :: m in r.loaded ==> m in e.available && forall d :: d in e.available[m] ==> d in r.loaded && m in r.Rdeps(d)
  }

  /** Recorded reverse dependencies are dependencies of available modules. */
  ghost predicate Honest(e: Env, r: Registry) {
    && r.rdeps.Keys <= e.available.Keys
    && forall d, m :: m in r.Rdeps(d) ==> m in e.available && d in e.available[m]
  }

  /** Dependencies have a smaller rank. */
  ghost predicate Ranked(e: Env, rank: Name -> nat) {
    forall m, d :: m in e.available && d in e.available[m] ==> rank(d) < rank(m)
  }

  function Joined(path: seq<Name>): string {
    if path == [] then "" else Joined(path[..|path| - 1]) + path[|path| - 1]
  }

  predicate Known(e: Env, n: Name) {
    n in e.available || exists m :: m in e.available && n in e.available[m]
  }

  predicate DependsOn(e: Env, m: Name, d: Name) { m in e.available && d in e.available[m] }

  /** Each name is a dependency of the one before it. */
  predicate Down(e: Env, path: seq<Name>) {
    forall i :: 0 <= i < |path| - 1 ==> DependsOn(e, path[i], path[i + 1])
  }

  /** Each name has the one before it as a dependency. */
  predicate Up(e: Env, path: seq<Name>) {
    forall i :: 0 <= i < |path| - 1 ==> DependsOn(e, path[i + 1], path[i])
  }

  /** Along every chain of dependencies, down or up, the guard lets the next name through: the chain does not
      come back to a name, and no name occurs in the joined names that lead to it. */
  ghost predicate Silent(e: Env) {
    forall path: seq<Name>, n :: Known(e, n) && (Down(e, path + [n]) || Up(e, path + [n])) ==> !Contains(Joined(path), n)
  }

  /** The guard finds a known name in joined known names only when it is one of them. */
  ghost predicate Tidy(e: Env) {
    forall path: seq<Name>, n :: (forall x :: x in path ==> Known(e, x)) && Known(e, n) && Contains(Joined(path), n) ==> n in path
  }

  lemma {:induction false} ChainRanks(e: Env, rank: Name -> nat, path: seq<Name>, i: nat, j: nat)
    requires Ranked(e, rank) && i < j < |path|
    ensures Down(e, path) ==> rank(path[j]) < rank(path[i])
    ensures Up(e, path) ==> rank(path[i]) < rank(path[j])
    decreases j
  {
    if i < j - 1 { ChainRanks(e, rank, path, i, j - 1); }
    var a, b := path[j - 1], path[j - 1 + 1];
    assert Down(e, path) ==> DependsOn(e, a, b);
    assert Up(e, path) ==> DependsOn(e, b, a);
  }

  /** Without cycles, names that do not overlap are enough. */
  lemma TidyIsSilent(e: Env, rank: Name -> nat)
    requires Ranked(e, rank) && Tidy(e)
    ensures Silent(e)
  {
    hide Contains, Joined, Ranked;
    forall path: seq<Name>, n | Known(e, n) && (Down(e, path + [n]) || Up(e, path + [n])) ensures !Contains(Joined(path), n) {
      var p := path + [n];
      forall x | x in path ensures Known(e, x) && x != n {
        var i :| 0 <= i < |path| && path[i] == x;
        assert p[i] == x && p[|path|] == n;
        ChainRanks(e, rank, p, i, |path|);
        assert p[i + 1] == if i + 1 < |path| then path[i + 1] else n;
      }
    }
  }

  lemma JoinedMore(path: seq<Name>, name: Name)
    ensures Joined(path + [name]) == Joined(path) + name
  {
    assert (path + [name])[..|path|] == path;
  }

  lemma {:induction false} LoadKeeps(e: Env, r: Registry, name: Name, path: seq<Name>)
    requires Silent(e) && Closed(e, r) && Honest(e, r)
    requires Known(e, name) && Down(e, path + [name])
    ensures var out := Load(e, r, name, Joined(path));
      && Closed(e, out.registry) && Honest(e, out.registry)
      && (out.ok ==> name in out.registry.loaded)
      && (forall d, m :: m in r.Rdeps(d) ==> m in out.registry.Rdeps(d))
    decreases |Open(e.available.Keys, Joined(path))|, 0
  {
    assert !Contains(Joined(path), name);
    hide Contains, Joined, Silent, Down, Closed, Honest, LoadAll, Registry.Rdeps;
    if name !in r.loaded && name in e.available {
      FewerOpen(e.available.Keys, Joined(path), name);
      JoinedMore(path, name);
      LoadAllKeeps(e, r, name, e.available[name], path + [name]);
      var out := LoadAll(e, r, name, e.available[name], Joined(path + [name]));
      if out.ok { LoadedKeeps(e, out.registry, name); }
    }
  }

  lemma {:induction false} LoadAllKeeps(e: Env, r: Registry, name: Name, deps: seq<Name>, path: seq<Name>)
    requires Silent(e) && Closed(e, r) && Honest(e, r)
    requires name in e.available && (forall d :: d in deps ==> d in e.available[name])
    requires path != [] && path[|path| - 1] == name && Down(e, path)
    ensures var out := LoadAll(e, r, name, deps, Joined(path));
      && Closed(e, out.registry) && Honest(e, out.registry)
      && (out.ok ==> forall d :: d in deps ==> d in out.registry.loaded && name in out.registry.Rdeps(d))
      && (forall d, m :: m in r.Rdeps(d) ==> m in out.registry.Rdeps(d))
    decreases |Open(e.available.Keys, Joined(path))|, |deps|
  {
    hide Contains, Joined, Silent, Load, Closed, Honest, Down, Known, Registry.Rdeps, Registry.AddReverse;
    if deps != [] {
      var n := |deps| - 1;
      LoadAllKeeps(e, r, name, deps[..n], path);
      var before := LoadAll(e, r, name, deps[..n], Joined(path));
      if before.ok {
        DownNext(e, path, name, deps[n]);
        LoadKeeps(e, before.registry, deps[n], path);
        var last := Load(e, before.registry, deps[n], Joined(path));
        if last.ok {
          ReverseKeeps(e, last.registry, deps[n], name);
          AddedOnly(last.registry, deps[n], name);
        }
        assert deps == deps[..n] + [deps[n]];
      }
    }
  }

  lemma DownNext(e: Env, path: seq<Name>, name: Name, dep: Name)
    requires name in e.available && dep in e.available[name]
    requires path != [] && path[|path| - 1] == name && Down(e, path)
    ensures Known(e, dep) && Down(e, path + [dep])
  {
  }

  lemma UpNext(e: Env, r: Registry, path: seq<Name>, name: Name, m: Name)
    requires Honest(e, r) && m in r.Rdeps(name)
    requires path != [] && path[|path| - 1] == name && Up(e, path)
    ensures Known(e, m) && Up(e, path + [m])
  {
  }

  lemma ReverseKeeps(e: Env, r: Registry, dep: Name, name: Name)
    requires Closed(e, r) && Honest(e, r) && name in e.available && dep in e.available[name] && dep in r.loaded
    ensures var after := r.AddReverse(dep, name);
      && Closed(e, after) && Honest(e, after) && name in after.Rdeps(dep)
      && (forall d, m :: m in r.Rdeps(d) ==> m in after.Rdeps(d))
  {
    var after := r.AddReverse(dep, name);
    forall d ensures after.Rdeps(d) == if d == dep then Inserted(r.Rdeps(dep), name) else r.Rdeps(d) {}
    hide Inserted, Registry.Rdeps, Registry.AddReverse;
    assert after.loaded == r.loaded by { AddedOnly(r, dep, name); }
  }

  lemma AddedOnly(r: Registry, dep: Name, name: Name)
    ensures r.AddReverse(dep, name).loaded == r.loaded
  {
  }

  lemma LoadedKeeps(e: Env, r: Registry, name: Name)
    requires Closed(e, r) && Honest(e, r) && name in e.available
    requires forall d :: d in e.available[name] ==> d in r.loaded && name in r.Rdeps(d)
    ensures var after := Registry(r.loaded + {name}, r.rdeps);
      Closed(e, after) && Honest(e, after) && forall d :: after.Rdeps(d) == r.Rdeps(d)
  {
    var after := Registry(r.loaded + {name}, r.rdeps);
    forall d ensures after.Rdeps(d) == r.Rdeps(d) {}
    hide Registry.Rdeps;
    assert after.loaded == r.loaded + {name};
  }

  lemma {:induction false} UnloadKeeps(e: Env, r: Registry, name: Name, path: seq<Name>)
    requires Silent(e) && Closed(e, r) && Honest(e, r)
    requires Known(e, name) && Up(e, path + [name])
    ensures var out := Unload(e, r, name, Joined(path));
      && Closed(e, out.registry)
      && (out.ok ==> name !in out.registry.loaded)
      && (forall m :: m in r.loaded && m !in out.registry.loaded ==> m !in e.busy)
      && (r.loaded !! e.busy ==> out.ok)
    decreases |Open(r.loaded, Joined(path))|, 0
  {
    assert !Contains(Joined(path), name);
    if name in r.loaded { assert name in e.available; }
    hide Contains, Joined, Silent, Up, Closed, Honest, UnloadAll, Registry.Rdeps, Known;
    if name in r.loaded && name !in e.busy {
      FewerOpen(r.loaded, Joined(path), name);
      JoinedMore(path, name);
      UnloadAllKeeps(e, r, name, r.Rdeps(name), path + [name]);
      var out := UnloadAll(e, r, r.Rdeps(name), Joined(path + [name]));
      if out.ok { ErasedKeeps(e, r, out.registry, name); }
    }
  }

  lemma ErasedKeeps(e: Env, r: Registry, out: Registry, name: Name)
    requires Closed(e, out) && out.rdeps == r.rdeps && forall m :: m in r.Rdeps(name) ==> m !in out.loaded
    ensures Closed(e, Registry(out.loaded - {name}, out.rdeps))
  {
    var after := Registry(out.loaded - {name}, out.rdeps);
    forall d ensures out.Rdeps(d) == r.Rdeps(d) == after.Rdeps(d) {}
    hide Registry.Rdeps;
    assert after.loaded == out.loaded - {name};
  }

  lemma {:induction false} UnloadAllKeeps(e: Env, r: Registry, name: Name, names: seq<Name>, path: seq<Name>)
    requires Silent(e) && Closed(e, r) && Honest(e, r)
    requires name in e.available && forall m :: m in names ==> m in r.Rdeps(name)
    requires path != [] && path[|path| - 1] == name && Up(e, path)
    ensures var out := UnloadAll(e, r, names, Joined(path));
      && Closed(e, out.registry)
      && (out.ok ==> forall m :: m in names ==> m !in out.registry.loaded)
      && (forall m :: m in r.loaded && m !in out.registry.loaded ==> m !in e.busy)
      && (r.loaded !! e.busy ==> out.ok)
    decreases |Open(r.loaded, Joined(path))|, |names|
  {
    hide Contains, Joined, Silent, Unload, Closed, Honest, Up, Known, Registry.Rdeps;
    if names != [] {
      var n := |names| - 1;
      UnloadAllKeeps(e, r, name, names[..n], path);
      var before := UnloadAll(e, r, names[..n], Joined(path));
      if before.ok {
        SubsetCount(Open(before.registry.loaded, Joined(path)), Open(r.loaded, Joined(path)));
        UpNext(e, r, path, name, names[n]);
        SameRdeps(e, r, before.registry);
        UnloadKeeps(e, before.registry, names[n], path);
        assert names == names[..n] + [names[n]];
      }
    }
  }

  lemma SameRdeps(e: Env, r: Registry, s: Registry)
    requires Honest(e, r) && r.rdeps == s.rdeps
    ensures Honest(e, s)
  {
    assert forall d :: s.Rdeps(d) == r.Rdeps(d);
  }

  /** Whatever the guard finds: modules that objects refer to stay, and without such modules unloading succeeds. */
  lemma {:induction false} UnloadSpares(e: Env, r: Registry, name: Name, unloading: string)
    ensures var out := Unload(e, r, name, unloading);
      && r.loaded * e.busy <= out.registry.loaded
      && (r.loaded !! e.busy ==> out.ok)
      && (out.ok && !Contains(unloading, name) ==> name !in out.registry.loaded)
    decreases |Open(r.loaded, unloading)|, 0
  {
    if !Contains(unloading, name) && name in r.loaded && name !in e.busy {
      FewerOpen(r.loaded, unloading, name);
      hide Contains;
      UnloadAllSpares(e, r, r.Rdeps(name), unloading + name);
    }
  }

  lemma {:induction false} UnloadAllSpares(e: Env, r: Registry, names: seq<Name>, unloading: string)
    ensures var out := UnloadAll(e, r, names, unloading);
      r.loaded * e.busy <= out.registry.loaded && (r.loaded !! e.busy ==> out.ok)
    decreases |Open(r.loaded, unloading)|, |names|
  {
    hide Contains;
    if names != [] {
      var n := |names| - 1;
      UnloadAllSpares(e, r, names[..n], unloading);
      var before := UnloadAll(e, r, names[..n], unloading);
      if before.ok {
        SubsetCount(Open(before.registry.loaded, unloading), Open(r.loaded, unloading));
        UnloadSpares(e, before.registry, names[n], unloading);
      }
    }
  }

  // ---------------------------------------------------------------- nothing else changes

  /** A chain of dependencies leads from a to b. */
  ghost predicate Needs(e: Env, a: Name, b: Name) {
    exists path :: path != [] && path[0] == a && path[|path| - 1] == b && Down(e, path)
  }

  /** A chain of recorded reverse dependencies leads from a to b. */
  ghost predicate Recorded(r: Registry, a: Name, b: Name) {
    exists path :: path != [] && path[0] == a && path[|path| - 1] == b && Listed(r, path)
  }

  predicate Listed(r: Registry, path: seq<Name>) {
    forall i :: 0 <= i < |path| - 1 ==> path[i + 1] in r.Rdeps(path[i])
  }

  lemma NeedsItself(e: Env, a: Name)
    ensures Needs(e, a, a)
  {
    assert Down(e, [a]);
  }

  lemma NeedsNext(e: Env, a: Name, d: Name, b: Name)
    requires DependsOn(e, a, d) && Needs(e, d, b)
    ensures Needs(e, a, b)
  {
    var path :| path != [] && path[0] == d && path[|path| - 1] == b && Down(e, path);
    var more := [a] + path;
    forall i | 0 <= i < |more| - 1 ensures DependsOn(e, more[i], more[i + 1]) {
      if i > 0 { assert DependsOn(e, path[i - 1], path[i - 1 + 1]); }
    }
    assert Down(e, more) && more[0] == a && more[|more| - 1] == b;
  }

  lemma RecordedItself(r: Registry, a: Name)
    ensures Recorded(r, a, a)
  {
    assert Listed(r, [a]);
  }

  lemma RecordedNext(r: Registry, a: Name, d: Name, b: Name)
    requires d in r.Rdeps(a) && Recorded(r, d, b)
    ensures Recorded(r, a, b)
  {
    hide Registry.Rdeps;
    var path :| path != [] && path[0] == d && path[|path| - 1] == b && Listed(r, path);
    var more := [a] + path;
    forall i | 0 <= i < |more| - 1 ensures more[i + 1] in r.Rdeps(more[i]) {
      if i > 0 { assert path[i - 1 + 1] in r.Rdeps(path[i - 1]); }
    }
    assert Listed(r, more) && more[0] == a && more[|more| - 1] == b;
  }

  lemma SameRecords(r: Registry, s: Registry, a: Name, b: Name)
    requires r.rdeps == s.rdeps && Recorded(s, a, b)
    ensures Recorded(r, a, b)
  {
    assert forall x :: r.Rdeps(x) == s.Rdeps(x);
    hide Registry.Rdeps;
    var path :| path != [] && path[0] == a && path[|path| - 1] == b && Listed(s, path);
    assert Listed(r, path);
  }

  /** What is recorded honestly is a chain of dependants. */
  lemma RecordedDepends(e: Env, r: Registry, a: Name, b: Name)
    requires Honest(e, r) && Recorded(r, a, b)
    ensures exists path :: path != [] && path[0] == a && path[|path| - 1] == b && Up(e, path)
  {
    hide Registry.Rdeps;
    var path :| path != [] && path[0] == a && path[|path| - 1] == b && Listed(r, path);
    assert Up(e, path);
  }

  /** Only modules reached from name become loaded, of those that do not throw, and are recorded, and one of them
      is to blame for a failure. */
  ghost predicate LoadsOnly(e: Env, r: Registry, name: Name, out: Result) {
    && (forall m :: m in out.registry.loaded && m !in r.loaded ==> Needs(e, name, m) && m !in e.broken)
    && (forall d, m :: m in out.registry.Rdeps(d) && m !in r.Rdeps(d) ==> DependsOn(e, m, d) && Needs(e, name, m))
    && (!out.ok ==> exists m :: Needs(e, name, m) && (m in e.broken || m !in e.available))
  }

  ghost predicate UnloadsOnly(e: Env, r: Registry, name: Name, out: Result) {
    && (forall m :: m in r.loaded && m !in out.registry.loaded ==> Recorded(r, name, m))
    && (!out.ok ==> exists m :: m in r.loaded && m in e.busy && Recorded(r, name, m))
  }

  /** Whatever the guard finds: only modules that the named one needs become loaded, only their dependencies are
      recorded, and loading fails only when one of them is not available or throws. */
  lemma {:induction false} LoadFrame(e: Env, r: Registry, name: Name, loading: string)
    ensures LoadsOnly(e, r, name, Load(e, r, name, loading))
    decreases |Open(e.available.Keys, loading)|, 0
  {
    NeedsItself(e, name);
    if !Contains(loading, name) && name !in r.loaded && name in e.available {
      FewerOpen(e.available.Keys, loading, name);
      hide Contains, Inserted, Needs, LoadAll, Registry.Rdeps;
      AllFrame(e, r, name, e.available[name], loading + name);
      var all := LoadAll(e, r, name, e.available[name], loading + name);
      SameRdepsAt(all.registry, all.registry.loaded + {name});
    } else {
      SameRdepsAt(r, r.loaded + {name});
      hide Contains, Needs, Registry.Rdeps;
    }
  }

  lemma SameRdepsAt(r: Registry, loaded: set<Name>)
    ensures forall d :: Registry(loaded, r.rdeps).Rdeps(d) == r.Rdeps(d)
  {
  }

  lemma {:induction false} AllFrame(e: Env, r: Registry, name: Name, deps: seq<Name>, loading: string)
    requires name in e.available && forall d :: d in deps ==> d in e.available[name]
    ensures LoadsOnly(e, r, name, LoadAll(e, r, name, deps, loading))
    decreases |Open(e.available.Keys, loading)|, |deps|
  {
    hide Contains, Inserted, Needs, Load, LoadsOnly, Registry.AddReverse;
    if deps == [] {
      NothingLoads(e, r, name);
    } else {
      var n := |deps| - 1;
      AllFrame(e, r, name, deps[..n], loading);
      var before := LoadAll(e, r, name, deps[..n], loading);
      if before.ok {
        LoadFrame(e, before.registry, deps[n], loading);
        assert DependsOn(e, name, deps[n]);
        var last := Load(e, before.registry, deps[n], loading);
        LastLoads(e, r, name, deps[n], before, last);
      }
    }
  }

  lemma NothingLoads(e: Env, r: Registry, name: Name)
    ensures LoadsOnly(e, r, name, Result(r, true))
  {
  }

  lemma LastLoads(e: Env, r: Registry, name: Name, dep: Name, before: Result, last: Result)
    requires LoadsOnly(e, r, name, before) && LoadsOnly(e, before.registry, dep, last) && DependsOn(e, name, dep)
    ensures LoadsOnly(e, r, name, last)
    ensures LoadsOnly(e, r, name, Result(last.registry.AddReverse(dep, name), true))
  {
    hide *;
    NeededAlso(e, name, dep);
    NeedsItself(e, name);
    BothLoad(e, r, name, dep, before, last);
    ReverseLoads(e, r, name, dep, last);
  }

  lemma NeededAlso(e: Env, name: Name, dep: Name)
    requires DependsOn(e, name, dep)
    ensures forall m :: Needs(e, dep, m) ==> Needs(e, name, m)
  {
    hide Needs;
    forall m | Needs(e, dep, m) ensures Needs(e, name, m) { NeedsNext(e, name, dep, m); }
  }

  lemma BothLoad(e: Env, r: Registry, name: Name, dep: Name, before: Result, last: Result)
    requires LoadsOnly(e, r, name, before) && LoadsOnly(e, before.registry, dep, last)
    requires forall m :: Needs(e, dep, m) ==> Needs(e, name, m)
    ensures LoadsOnly(e, r, name, last)
  {
    hide Needs, Registry.Rdeps;
  }

  lemma ReverseLoads(e: Env, r: Registry, name: Name, dep: Name, last: Result)
    requires LoadsOnly(e, r, name, last) && DependsOn(e, name, dep) && Needs(e, name, name)
    ensures LoadsOnly(e, r, name, Result(last.registry.AddReverse(dep, name), true))
  {
    var after := last.registry.AddReverse(dep, name);
    forall d, m | m in after.Rdeps(d) ensures m in last.registry.Rdeps(d) || (d == dep && m == name) {}
    AddedOnly(last.registry, dep, name);
    hide Inserted, Needs, Registry.Rdeps, Registry.AddReverse;
  }

  /** Whatever the guard finds: only recorded dependants of the named module are unloaded with it, and unloading
      fails only when one of them is busy. */
  lemma {:induction false} UnloadFrame(e: Env, r: Registry, name: Name, unloading: string)
    ensures UnloadsOnly(e, r, name, Unload(e, r, name, unloading))
    decreases |Open(r.loaded, unloading)|, 0
  {
    RecordedItself(r, name);
    if !Contains(unloading, name) && name in r.loaded && name !in e.busy {
      FewerOpen(r.loaded, unloading, name);
      hide Contains, Recorded, UnloadAll, Registry.Rdeps;
      UnloadAllFrame(e, r, name, r.Rdeps(name), unloading + name);
    }
  }

  lemma {:induction false} UnloadAllFrame(e: Env, r: Registry, name: Name, names: seq<Name>, unloading: string)
    requires forall m :: m in names ==> m in r.Rdeps(name)
    ensures UnloadsOnly(e, r, name, UnloadAll(e, r, names, unloading))
    decreases |Open(r.loaded, unloading)|, |names|
  {
    hide Contains, Recorded, Unload, Registry.Rdeps;
    if names != [] {
      var n := |names| - 1;
      UnloadAllFrame(e, r, name, names[..n], unloading);
      var before := UnloadAll(e, r, names[..n], unloading);
      if before.ok {
        SubsetCount(Open(before.registry.loaded, unloading), Open(r.loaded, unloading));
        UnloadFrame(e, before.registry, names[n], unloading);
        forall m | Recorded(before.registry, names[n], m) ensures Recorded(r, name, m) {
          SameRecords(r, before.registry, names[n], m);
          RecordedNext(r, name, names[n], m);
        }
      }
    }
  }

  // ---------------------------------------------------------------- runs

  /** A request, with the state of the environment while it is served. */
  datatype Request = LoadRequest(name: Name, broken: set<Name>) | UnloadRequest(name: Name, busy: set<Name>)

  function Served(available: map<Name, seq<Name>>, r: Registry, q: Request): Result {
    match q
    case LoadRequest(name, broken) => Load(Env(available, broken, {}), r, name, "")
    case UnloadRequest(name, busy) => Unload(Env(available, {}, busy), r, name, "")
  }

  function AfterRun(available: map<Name, seq<Name>>, run: seq<Request>): Registry
    decreases |run|
  {
    if run == [] then Registry({}, map[])
    else Served(available, AfterRun(available, run[..|run| - 1]), run[|run| - 1]).registry
  }

  ghost predicate Consistent(available: map<Name, seq<Name>>, r: Registry) {
    Closed(Env(available, {}, {}), r) && Honest(Env(available, {}, {}), r)
  }

  lemma OnlyAvailable(available: map<Name, seq<Name>>, broken: set<Name>, busy: set<Name>, r: Registry)
    ensures var e, f := Env(available, {}, {}), Env(available, broken, busy);
      && (Closed(e, r) <==> Closed(f, r)) && (Honest(e, r) <==> Honest(f, r))
      && (Silent(e) <==> Silent(f))
  {
    assert forall n :: Known(Env(available, {}, {}), n) <==> Known(Env(available, broken, busy), n);
    hide Contains, Joined;
  }

  lemma UnknownIgnored(e: Env, r: Registry, name: Name)
    requires !Known(e, name) && Closed(e, r) && Honest(e, r)
    ensures Load(e, r, name, "").registry == r && Unload(e, r, name, "") == Result(r, true)
  {
  }

  lemma ServedLoad(available: map<Name, seq<Name>>, r: Registry, name: Name, broken: set<Name>)
    requires Silent(Env(available, {}, {})) && Consistent(available, r)
    ensures Consistent(available, Served(available, r, LoadRequest(name, broken)).registry)
  {
    var e := Env(available, broken, {});
    var out := Load(e, r, name, "");
    OnlyAvailable(available, broken, {}, r);
    OnlyAvailable(available, broken, {}, out.registry);
    hide Load, Closed, Honest, Silent, Known;
    if Known(e, name) {
      LoadKeeps(e, r, name, []);
    } else {
      UnknownIgnored(e, r, name);
    }
  }

  lemma ServedUnload(available: map<Name, seq<Name>>, r: Registry, name: Name, busy: set<Name>)
    requires Silent(Env(available, {}, {})) && Consistent(available, r)
    ensures var out := Served(available, r, UnloadRequest(name, busy)).registry;
      Consistent(available, out) && forall m :: m in r.loaded && m !in out.loaded ==> m !in busy
  {
    var e := Env(available, {}, busy);
    var out := Unload(e, r, name, "");
    OnlyAvailable(available, {}, busy, r);
    OnlyAvailable(available, {}, busy, out.registry);
    hide Unload, Closed, Silent, Known, Honest;
    if Known(e, name) {
      UnloadKeeps(e, r, name, []);
      SameRdeps(e, r, out.registry);
    } else {
      UnknownIgnored(e, r, name);
    }
  }

  /** Every run of loads and unloads, including those that fail half way, leaves the loaded modules closed
      under their dependencies, and no unload removes a module that objects refer to. */
  lemma {:induction false} RunKeeps(available: map<Name, seq<Name>>, run: seq<Request>)
    requires Silent(Env(available, {}, {}))
    ensures Consistent(available, AfterRun(available, run))
    ensures run != [] && run[|run| - 1].UnloadRequest? ==>
      forall m :: m in AfterRun(available, run[..|run| - 1]).loaded && m !in AfterRun(available, run).loaded ==> m !in run[|run| - 1].busy
    decreases |run|
  {
    if run == [] {
      EmptyConsistent(available);
    } else {
      hide Consistent, Served, Silent;
      RunKeeps(available, run[..|run| - 1]);
      var before := AfterRun(available, run[..|run| - 1]);
      match run[|run| - 1] {
        case LoadRequest(name, broken) => ServedLoad(available, before, name, broken);
        case UnloadRequest(name, busy) => ServedUnload(available, before, name, busy);
      }
    }
  }

  lemma EmptyConsistent(available: map<Name, seq<Name>>)
    ensures Consistent(available, Registry({}, map[]))
  {
  }

  /** While the guard contains a name, that name is not loaded. */
  lemma {:induction false} ShadowedStays(e: Env, r: Registry, name: Name, loading: string, d: Name)
    requires Contains(loading, d) && d !in r.loaded
    ensures d !in Load(e, r, name, loading).registry.loaded
    decreases |Open(e.available.Keys, loading)|, 0
  {
    if !Contains(loading, name) && name !in r.loaded && name in e.available {
      FewerOpen(e.available.Keys, loading, name);
      ContainsMore(loading, name, d);
      hide Contains, Inserted;
      ShadowedAll(e, r, name, e.available[name], loading + name, d);
    }
  }

  lemma {:induction false} ShadowedAll(e: Env, r: Registry, name: Name, deps: seq<Name>, loading: string, d: Name)
    requires Contains(loading, d) && d !in r.loaded
    ensures d !in LoadAll(e, r, name, deps, loading).registry.loaded
    decreases |Open(e.available.Keys, loading)|, |deps|
  {
    hide Contains, Inserted;
    if deps != [] {
      var n := |deps| - 1;
      ShadowedAll(e, r, name, deps[..n], loading, d);
      var before := LoadAll(e, r, name, deps[..n], loading);
      if before.ok { ShadowedStays(e, before.registry, deps[n], loading, d); }
    }
  }

  /** While the guard contains a name, that name is not unloaded either. */
  lemma {:induction false} ShadowedRemains(e: Env, r: Registry, name: Name, unloading: string, d: Name)
    requires Contains(unloading, d) && d in r.loaded
    ensures d in Unload(e, r, name, unloading).registry.loaded
    decreases |Open(r.loaded, unloading)|, 0
  {
    if !Contains(unloading, name) && name in r.loaded && name !in e.busy {
      FewerOpen(r.loaded, unloading, name);
      ContainsMore(unloading, name, d);
      hide Contains;
      AllRemain(e, r, r.Rdeps(name), unloading + name, d);
    }
  }

  lemma {:induction false} AllRemain(e: Env, r: Registry, names: seq<Name>, unloading: string, d: Name)
    requires Contains(unloading, d) && d in r.loaded
    ensures d in UnloadAll(e, r, names, unloading).registry.loaded
    decreases |Open(r.loaded, unloading)|, |names|
  {
    hide Contains;
    if names != [] {
      var n := |names| - 1;
      AllRemain(e, r, names[..n], unloading, d);
      var before := UnloadAll(e, r, names[..n], unloading);
      if before.ok {
        SubsetCount(Open(before.registry.loaded, unloading), Open(r.loaded, unloading));
        ShadowedRemains(e, before.registry, names[n], unloading, d);
      }
    }
  }

  /** What fails to load is not loaded, and what fails to unload stays. */
  lemma FailureIs(e: Env, r: Registry, name: Name, guard: string)
    ensures !Load(e, r, name, guard).ok ==> name !in Load(e, r, name, guard).registry.loaded
    ensures !Unload(e, r, name, guard).ok ==> name in Unload(e, r, name, guard).registry.loaded
  {
    ContainsLast(guard, name);
    if name in e.available && name !in r.loaded { ShadowedAll(e, r, name, e.available[name], guard + name, name); }
    if name in r.loaded { AllRemain(e, r, r.Rdeps(name), guard + name, name); }
    hide Contains, LoadAll, UnloadAll, Registry.Rdeps;
  }

  /** When the dependencies of a module cannot all be loaded, those before the first that cannot stay loaded. */
  lemma {:induction false} DependencyFails(e: Env, r: Registry, name: Name, deps: seq<Name>, path: seq<Name>) returns (i: nat)
    requires Silent(e) && Closed(e, r) && Honest(e, r)
    requires name in e.available && (forall d :: d in deps ==> d in e.available[name])
    requires path != [] && path[|path| - 1] == name && Down(e, path)
    requires !LoadAll(e, r, name, deps, Joined(path)).ok
    ensures var out := LoadAll(e, r, name, deps, Joined(path)).registry;
      i < |deps| && deps[i] !in out.loaded && forall j :: 0 <= j < i ==> deps[j] in out.loaded && name in out.Rdeps(deps[j])
    decreases |deps|
  {
    hide Contains, Joined, Silent, Load, Closed, Honest, Down, Known, Registry.Rdeps, Registry.AddReverse;
    var n := |deps| - 1;
    var before := LoadAll(e, r, name, deps[..n], Joined(path));
    if !before.ok {
      i := DependencyFails(e, r, name, deps[..n], path);
    } else {
      i := n;
      LoadAllKeeps(e, r, name, deps[..n], path);
      DownNext(e, path, name, deps[n]);
      LoadKeeps(e, before.registry, deps[n], path);
      FailureIs(e, before.registry, deps[n], Joined(path));
      forall j | 0 <= j < n ensures deps[j] in before.registry.loaded && name in before.registry.Rdeps(deps[j]) {
        assert deps[..n][j] in deps[..n];
      }
    }
  }

  /** A module that fails to load leaves the dependencies before the one to blame loaded; if no dependency is to
      blame the module itself throws. */
  lemma LoadStops(e: Env, r: Registry, name: Name, path: seq<Name>) returns (i: nat)
    requires Silent(e) && Closed(e, r) && Honest(e, r) && name in e.available && Down(e, path + [name])
    requires !Load(e, r, name, Joined(path)).ok
    ensures var out, deps := Load(e, r, name, Joined(path)).registry, e.available[name];
      && name !in out.loaded && i <= |deps|
      && (forall j :: 0 <= j < i ==> deps[j] in out.loaded && name in out.Rdeps(deps[j]))
      && (if i < |deps| then deps[i] !in out.loaded else name in e.broken)
  {
    FailureIs(e, r, name, Joined(path));
    JoinedMore(path, name);
    hide Contains, Joined, Silent, Down, Closed, Honest, LoadAll, Registry.Rdeps;
    var deps, all := e.available[name], LoadAll(e, r, name, e.available[name], Joined(path + [name]));
    if all.ok {
      i := |deps|;
      LoadAllKeeps(e, r, name, deps, path + [name]);
      forall j | 0 <= j < i ensures deps[j] in all.registry.loaded && name in all.registry.Rdeps(deps[j]) { assert deps[j] in deps; }
    } else {
      i := DependencyFails(e, r, name, deps, path + [name]);
    }
  }

  /** When the dependants of a module cannot all be unloaded, those before the first that cannot are gone. */
  lemma {:induction false} DependantStays(e: Env, r: Registry, name: Name, names: seq<Name>, path: seq<Name>) returns (i: nat)
    requires Silent(e) && Closed(e, r) && Honest(e, r)
    requires name in e.available && forall m :: m in names ==> m in r.Rdeps(name)
    requires path != [] && path[|path| - 1] == name && Up(e, path)
    requires !UnloadAll(e, r, names, Joined(path)).ok
    ensures var out := UnloadAll(e, r, names, Joined(path)).registry;
      i < |names| && names[i] in out.loaded && forall j :: 0 <= j < i ==> names[j] !in out.loaded
    decreases |names|
  {
    hide Contains, Joined, Silent, Unload, Closed, Honest, Up, Known, Registry.Rdeps;
    var n := |names| - 1;
    var before := UnloadAll(e, r, names[..n], Joined(path));
    if !before.ok {
      i := DependantStays(e, r, name, names[..n], path);
    } else {
      i := n;
      UnloadAllKeeps(e, r, name, names[..n], path);
      FailureIs(e, before.registry, names[n], Joined(path));
      forall j | 0 <= j < n ensures names[j] !in before.registry.loaded { assert names[..n][j] in names[..n]; }
    }
  }

  /** A module that fails to unload stays, and the recorded dependants before the one to blame are gone; if none is to
      blame the module itself is busy. */
  lemma UnloadStops(e: Env, r: Registry, name: Name, path: seq<Name>) returns (i: nat)
    requires Silent(e) && Closed(e, r) && Honest(e, r) && name in e.available && Up(e, path + [name])
    requires !Unload(e, r, name, Joined(path)).ok
    ensures var out, names := Unload(e, r, name, Joined(path)).registry, r.Rdeps(name);
      && name in out.loaded && i <= |names|
      && (name in e.busy ==> out == r)
      && (name !in e.busy ==> i < |names| && names[i] in out.loaded && forall j :: 0 <= j < i ==> names[j] !in out.loaded)
  {
    FailureIs(e, r, name, Joined(path));
    JoinedMore(path, name);
    hide Contains, Joined, Silent, Up, Closed, Honest, UnloadAll, Registry.Rdeps;
    i := 0;
    if name !in e.busy { i := DependantStays(e, r, name, r.Rdeps(name), path + [name]); }
  }

  /** The reverse dependencies of every module are a set in order. */
  ghost predicate Sorted(r: Registry) {
    forall d :: Ascending(r.Rdeps(d))
  }

  lemma {:induction false} LoadSorts(e: Env, r: Registry, name: Name, loading: string)
    requires Sorted(r)
    ensures Sorted(Load(e, r, name, loading).registry)
    decreases |Open(e.available.Keys, loading)|, 0
  {
    SameRdepsAt(r, r.loaded + {name});
    if !Contains(loading, name) && name !in r.loaded && name in e.available {
      FewerOpen(e.available.Keys, loading, name);
      LoadAllSorts(e, r, name, e.available[name], loading + name);
      var all := LoadAll(e, r, name, e.available[name], loading + name).registry;
      SameRdepsAt(all, all.loaded + {name});
      hide Contains, LoadAll, Registry.Rdeps, Ascending;
    } else {
      hide Contains, Registry.Rdeps, Ascending;
    }
  }

  lemma {:induction false} LoadAllSorts(e: Env, r: Registry, name: Name, deps: seq<Name>, loading: string)
    requires Sorted(r)
    ensures Sorted(LoadAll(e, r, name, deps, loading).registry)
    decreases |Open(e.available.Keys, loading)|, |deps|
  {
    hide Contains, Load, Registry.AddReverse, Sorted;
    if deps != [] {
      var n := |deps| - 1;
      LoadAllSorts(e, r, name, deps[..n], loading);
      var before := LoadAll(e, r, name, deps[..n], loading);
      if before.ok {
        LoadSorts(e, before.registry, deps[n], loading);
        ReverseSorts(Load(e, before.registry, deps[n], loading).registry, deps[n], name);
      }
    }
  }

  lemma ReverseSorts(r: Registry, dep: Name, name: Name)
    requires Sorted(r)
    ensures Sorted(r.AddReverse(dep, name))
  {
    InsertedAscends(r.Rdeps(dep), name);
    hide Inserted, Ascending;
    forall d ensures Ascending(r.AddReverse(dep, name).Rdeps(d)) { assert Ascending(r.Rdeps(d)); }
  }

  lemma NothingSorted()
    ensures Sorted(Registry({}, map[]))
  {
    hide Less;
    assert forall d :: Registry({}, map[]).Rdeps(d) == [];
  }

  /** After every run the reverse dependencies are recorded in order, each once. */
  lemma {:induction false} RunSorts(available: map<Name, seq<Name>>, run: seq<Request>)
    ensures Sorted(AfterRun(available, run))
    decreases |run|
  {
    NothingSorted();
    hide Load, Unload, Ascending;
    if run != [] {
      var before := run[..|run| - 1];
      RunSorts(available, before);
      var r := AfterRun(available, before);
      match run[|run| - 1]
      case LoadRequest(name, broken) => LoadSorts(Env(available, broken, {}), r, name, "");
      case UnloadRequest(name, busy) =>
        var out := Unload(Env(available, {}, busy), r, name, "").registry;
        assert out.rdeps == r.rdeps;
        SameRdepsAt(r, out.loaded);
    }
  }

  /** With every dependency available and no load that throws, loading succeeds. */
  lemma {:induction false} LoadSucceeds(e: Env, r: Registry, name: Name, loading: string)
    requires e.broken == {} && name in e.available && (forall m, d :: DependsOn(e, m, d) ==> d in e.available)
    ensures Load(e, r, name, loading).ok
    ensures !Contains(loading, name) ==> name in Load(e, r, name, loading).registry.loaded
    decreases |Open(e.available.Keys, loading)|, 0
  {
    if !Contains(loading, name) && name !in r.loaded {
      FewerOpen(e.available.Keys, loading, name);
      hide Contains, Inserted;
      forall d | d in e.available[name] ensures d in e.available { assert DependsOn(e, name, d); }
      AllSucceed(e, r, name, e.available[name], loading + name);
    }
  }

  lemma {:induction false} AllSucceed(e: Env, r: Registry, name: Name, deps: seq<Name>, loading: string)
    requires e.broken == {} && (forall m, d :: DependsOn(e, m, d) ==> d in e.available)
    requires forall d :: d in deps ==> d in e.available
    ensures LoadAll(e, r, name, deps, loading).ok
    decreases |Open(e.available.Keys, loading)|, |deps|
  {
    hide Contains, Inserted;
    if deps != [] {
      var n := |deps| - 1;
      AllSucceed(e, r, name, deps[..n], loading);
      LoadSucceeds(e, LoadAll(e, r, name, deps[..n], loading).registry, deps[n], loading);
    }
  }

  /** Whenever the name of a dependency occurs in the name of a module, the guard mistakes the dependency for
      one being loaded: already the run that loads the module leaves it loaded without the dependency. */
  lemma NeedsSilent(available: map<Name, seq<Name>>, name: Name, d: Name)
    requires var e := Env(available, {}, {});
      DependsOn(e, name, d) && d != name && Contains(name, d) && forall m, x :: DependsOn(e, m, x) ==> x in available
    requires name != ""
    ensures var r := AfterRun(available, [LoadRequest(name, {})]);
      name in r.loaded && d !in r.loaded && !Consistent(available, r)
  {
    var e, r, run := Env(available, {}, {}), Registry({}, map[]), [LoadRequest(name, {})];
    assert run[..0] == [] && "" + name == name;
    assert !Contains("", name);
    LoadSucceeds(e, r, name, "");
    hide Contains, Inserted;
    ShadowedAll(e, r, name, available[name], name, d);
    assert AfterRun(available, run[..0]) == r;
  }

  // ---------------------------------------------------------------- the registry object

  lemma {:induction false} LoadAllStops(e: Env, r: Registry, name: Name, deps: seq<Name>, loading: string, m: nat)
    requires m <= |deps| && !LoadAll(e, r, name, deps[..m], loading).ok
    ensures LoadAll(e, r, name, deps, loading) == LoadAll(e, r, name, deps[..m], loading)
    decreases |deps|
  {
    hide Load, Open;
    if m == |deps| {
      assert deps[..m] == deps;
    } else {
      var n := |deps| - 1;
      assert deps[..n][..m] == deps[..m];
      LoadAllStops(e, r, name, deps[..n], loading, m);
    }
  }

  lemma LoadAllNext(e: Env, r: Registry, name: Name, deps: seq<Name>, loading: string, i: nat)
    requires i < |deps| && LoadAll(e, r, name, deps[..i], loading).ok
    ensures LoadAll(e, r, name, deps[..i + 1], loading)
         == var last := Load(e, LoadAll(e, r, name, deps[..i], loading).registry, deps[i], loading);
            if !last.ok then last else Result(last.registry.AddReverse(deps[i], name), true)
  {
    hide Load, Open, Registry.AddReverse;
    assert deps[..i + 1][..i] == deps[..i];
  }

  lemma {:induction false} UnloadAllStops(e: Env, r: Registry, names: seq<Name>, unloading: string, m: nat)
    requires m <= |names| && !UnloadAll(e, r, names[..m], unloading).ok
    ensures UnloadAll(e, r, names, unloading) == UnloadAll(e, r, names[..m], unloading)
    decreases |names|
  {
    hide Unload, Open;
    if m == |names| {
      assert names[..m] == names;
    } else {
      var n := |names| - 1;
      assert names[..n][..m] == names[..m];
      UnloadAllStops(e, r, names[..n], unloading, m);
    }
  }

  lemma UnloadAllNext(e: Env, r: Registry, names: seq<Name>, unloading: string, i: nat)
    requires i < |names| && UnloadAll(e, r, names[..i], unloading).ok
    ensures UnloadAll(e, r, names[..i + 1], unloading) == Unload(e, UnloadAll(e, r, names[..i], unloading).registry, names[i], unloading)
  {
    hide Unload, Open;
    assert names[..i + 1][..i] == names[..i];
  }

  class CeDllRegistry {
    const available: map<Name, seq<Name>>
    var loaded: set<Name>
    var rdeps: map<Name, seq<Name>>

    function State(): Registry
      reads this
    {
      Registry(loaded, rdeps)
    }

    constructor (available: map<Name, seq<Name>>)
      ensures this.available == available && State() == Registry({}, map[])
    {
      this.available, loaded, rdeps := available, {}, map[];
    }

    method LoadIfNotLoaded(dllName: Name, loading: string, broken: set<Name>) returns (ok: bool)
      modifies this
      ensures Result(State(), ok) == Load(Env(available, broken, {}), old(State()), dllName, loading)
      decreases |Open(available.Keys, loading)|, 0
    {
      if Contains(loading, dllName) { return true; }
      if dllName in loaded { return true; }
      if dllName !in available && dllName !in rdeps { return false; }
      ghost var e, r := Env(available, broken, {}), State();
      var deps, guard := if dllName in available then available[dllName] else [], loading + dllName;
      if dllName in available { FewerOpen(available.Keys, loading, dllName); }
      hide Open, Contains, LoadAll, Registry.AddReverse;
      LoadAllNothing(e, r, dllName, deps, guard);
      for i := 0 to |deps|
        invariant Result(State(), true) == LoadAll(e, r, dllName, deps[..i], guard)
      {
        hide Load;
        LoadAllNext(e, r, dllName, deps, guard, i);
        ok := LoadIfNotLoaded(deps[i], guard, broken);
        if !ok {
          LoadAllStops(e, r, dllName, deps, guard, i + 1);
          LoadFails(e, r, dllName, loading);
          return false;
        }
        AddReverseIs(State(), deps[i], dllName);
        rdeps := rdeps[deps[i] := Inserted(State().Rdeps(deps[i]), dllName)];
      }
      assert deps[..|deps|] == deps;
      if dllName in broken { return false; }
      loaded := loaded + {dllName};
      return true;
    }

    method UnloadIfLoaded(dllName: Name, unloading: string, busy: set<Name>) returns (ok: bool)
      modifies this
      ensures Result(State(), ok) == Unload(Env(available, {}, busy), old(State()), dllName, unloading)
      decreases |Open(loaded, unloading)|, 0
    {
      if Contains(unloading, dllName) { return true; }
      if dllName !in loaded { return true; }
      if dllName in busy { return false; }
      ghost var e, r := Env(available, {}, busy), State();
      var names, guard := State().Rdeps(dllName), unloading + dllName;
      FewerOpen(loaded, unloading, dllName);
      ghost var fewer := |Open(loaded, guard)|;
      hide Contains, UnloadAll;
      UnloadAllNothing(e, r, names, guard);
      for i := 0 to |names|
        invariant Result(State(), true) == UnloadAll(e, r, names[..i], guard)
        invariant |Open(loaded, guard)| <= fewer
      {
        hide Unload;
        UnloadAllNext(e, r, names, guard, i);
        ghost var before := loaded;
        ok := UnloadIfLoaded(names[i], guard, busy);
        SubsetCount(Open(loaded, guard), Open(before, guard));
        if !ok {
          UnloadAllStops(e, r, names, guard, i + 1);
          UnloadFails(e, r, dllName, unloading);
          return false;
        }
      }
      assert names[..|names|] == names;
      loaded := loaded - {dllName};
      return true;
    }

    /** Unload everything, while no object refers to a loaded module; otherwise the loop would not end. */
    method UnloadEverything(busy: set<Name>)
      requires "" !in loaded && loaded !! busy
      modifies this
      ensures loaded == {}
    {
      while loaded != {}
        invariant "" !in loaded && loaded !! busy
        decreases |loaded|
      {
        hide Unload;
        var name :| name in loaded;
        ghost var r := State();
        NothingInEmpty(name);
        UnloadSpares(Env(available, {}, busy), r, name, "");
        var ok := UnloadIfLoaded(name, "", busy);
        SubsetCount(loaded, r.loaded - {name});
      }
    }
  }

  lemma NothingInEmpty(n: Name)
    requires n != ""
    ensures !Contains("", n)
  {
  }

  /** The registry after n passes of the loop that unloads everything; each pass unloads the module that
      `first` picks from the loaded ones. */
  ghost function Passes(available: map<Name, seq<Name>>, busy: set<Name>, r: Registry, first: set<Name> -> Name, n: nat): Registry {
    if n == 0 then r
    else
      var before := Passes(available, busy, r, first, n - 1);
      if before.loaded == {} then before else Served(available, before, UnloadRequest(first(before.loaded), busy)).registry
  }

  lemma {:induction false} PassesKeep(available: map<Name, seq<Name>>, busy: set<Name>, r: Registry, first: set<Name> -> Name, n: nat)
    requires "" !in r.loaded && forall s :: s != {} ==> first(s) in s
    ensures var after := Passes(available, busy, r, first, n);
      && after.loaded <= r.loaded && r.loaded * busy <= after.loaded
      && (r.loaded !! busy ==> |after.loaded| + n <= |r.loaded| || after.loaded == {})
  {
    hide Unload;
    if n > 0 {
      PassesKeep(available, busy, r, first, n - 1);
      var before := Passes(available, busy, r, first, n - 1);
      if before.loaded != {} {
        var name := first(before.loaded);
        NothingInEmpty(name);
        UnloadSpares(Env(available, {}, busy), before, name, "");
        if r.loaded !! busy { SubsetCount(Passes(available, busy, r, first, n).loaded, before.loaded - {name}); }
      }
    }
  }

  /** In whatever order modules are picked, the loop ends if and only if no object refers to a loaded module. */
  lemma UnloadingEndsIff(available: map<Name, seq<Name>>, busy: set<Name>, r: Registry, first: set<Name> -> Name)
    requires "" !in r.loaded && forall s :: s != {} ==> first(s) in s
    ensures (exists n :: Passes(available, busy, r, first, n).loaded == {}) <==> r.loaded !! busy
  {
    hide Passes;
    if r.loaded !! busy {
      PassesKeep(available, busy, r, first, |r.loaded|);
      assert Passes(available, busy, r, first, |r.loaded|).loaded == {};
    } else {
      var m :| m in r.loaded && m in busy;
      forall n ensures m in Passes(available, busy, r, first, n).loaded { PassesKeep(available, busy, r, first, n); }
    }
  }

  /** The empty name, which every guard contains, is never loaded. */
  lemma {:induction false} EmptyNameStays(available: map<Name, seq<Name>>, run: seq<Request>)
    ensures "" !in AfterRun(available, run).loaded
    decreases |run|
  {
    hide Load, Unload;
    if run != [] {
      var before := AfterRun(available, run[..|run| - 1]);
      EmptyNameStays(available, run[..|run| - 1]);
      assert At("", "", 0);
      match run[|run| - 1] {
        case LoadRequest(name, broken) => ShadowedStays(Env(available, broken, {}), before, name, "", "");
        case UnloadRequest(name, busy) =>
      }
    }
  }

  lemma LoadAllNothing(e: Env, r: Registry, name: Name, deps: seq<Name>, loading: string)
    ensures LoadAll(e, r, name, deps[..0], loading) == Result(r, true)
  {
  }

  lemma UnloadAllNothing(e: Env, r: Registry, names: seq<Name>, unloading: string)
    ensures UnloadAll(e, r, names[..0], unloading) == Result(r, true)
  {
  }

  lemma AddReverseIs(r: Registry, dep: Name, name: Name)
    ensures r.AddReverse(dep, name) == Registry(r.loaded, r.rdeps[dep := Inserted(r.Rdeps(dep), name)])
  {
  }

  lemma LoadFails(e: Env, r: Registry, name: Name, loading: string)
    requires !Contains(loading, name) && name !in r.loaded && name in e.available
    requires !LoadAll(e, r, name, e.available[name], loading + name).ok
    ensures Load(e, r, name, loading) == Result(LoadAll(e, r, name, e.available[name], loading + name).registry, false)
  {
    hide Contains, LoadAll, Open;
  }

  lemma UnloadFails(e: Env, r: Registry, name: Name, unloading: string)
    requires !Contains(unloading, name) && name in r.loaded && name !in e.busy
    requires !UnloadAll(e, r, r.Rdeps(name), unloading + name).ok
    ensures Unload(e, r, name, unloading) == UnloadAll(e, r, r.Rdeps(name), unloading + name)
  {
    hide Contains, UnloadAll, Open;
  }
}
