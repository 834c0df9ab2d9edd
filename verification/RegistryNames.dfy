/** For which module names the search of the recursion guard in joined names does no harm. */
module RegistryNames {
  import opened DllRegistryModule

  type Modules = map<Name, seq<Name>>

  /** Modules and dependencies are named from the set, and dependencies have a smaller rank. */
  ghost predicate Fits(names: set<Name>, available: Modules) {
    && available.Keys <= names && (forall m, d :: m in available && d in available[m] ==> d in names)
    && exists rank :: Ranked(Env(available, {}, {}), rank)
  }

  predicate Different(path: seq<Name>) {
    forall i, j :: 0 <= i < j < |path| ==> path[i] != path[j]
  }

  /** Different names of the set, the last of which could be a dependency reached through the others. */
  predicate Chain(names: set<Name>, path: seq<Name>, n: Name) {
    path != [] && Different(path + [n]) && forall x :: x in path + [n] ==> x in names
  }

  /** No name occurs in the joined names of others, whichever others and in whichever order. */
  ghost predicate SafeNames(names: set<Name>) {
    forall path, n :: Chain(names, path, n) ==> !Contains(Joined(path), n)
  }

  // ---------------------------------------------------------------- safe names do no harm

  lemma RankedDifferent(e: Env, rank: Name -> nat, path: seq<Name>)
    requires Ranked(e, rank) && (Down(e, path) || Up(e, path))
    ensures Different(path)
  {
    hide Ranked, Down, Up;
    forall i, j | 0 <= i < j < |path| ensures path[i] != path[j] { ChainRanks(e, rank, path, i, j); }
  }

  lemma ChainKnown(e: Env, path: seq<Name>, n: Name, x: Name)
    requires Known(e, n) && (Down(e, path + [n]) || Up(e, path + [n])) && x in path + [n]
    ensures Known(e, x)
  {
    var p := path + [n];
    var i :| 0 <= i < |p| && p[i] == x;
    if i < |path| { assert DependsOn(e, p[i], p[i + 1]) || DependsOn(e, p[i + 1], p[i]); }
  }

  lemma SafeIsSilent(names: set<Name>, available: Modules)
    requires SafeNames(names) && "" !in names && Fits(names, available)
    ensures Silent(Env(available, {}, {}))
  {
    var e := Env(available, {}, {});
    var rank :| Ranked(e, rank);
    hide Contains, Joined, Ranked;
    forall path: seq<Name>, n | Known(e, n) && (Down(e, path + [n]) || Up(e, path + [n])) ensures !Contains(Joined(path), n) {
      RankedDifferent(e, rank, path + [n]);
      forall x | x in path + [n] ensures x in names { ChainKnown(e, path, n, x); }
      if path == [] { EmptyJoined(n); } else { assert Chain(names, path, n); }
    }
  }

  lemma EmptyJoined(n: Name)
    requires n != ""
    ensures !Contains(Joined([]), n)
  {
    NothingInEmpty(n);
  }

  /** With the empty name alone nothing is ever loaded: every guard contains it. */
  lemma {:induction false} OnlyEmptyName(available: Modules, run: seq<Request>)
    requires available.Keys <= {""}
    ensures AfterRun(available, run) == Registry({}, map[])
    decreases |run|
  {
    assert At("", "", 0);
    if run != [] { OnlyEmptyName(available, run[..|run| - 1]); }
  }

  lemma SafeRunKeeps(names: set<Name>, available: Modules, run: seq<Request>)
    requires SafeNames(names) && Fits(names, available)
    ensures Consistent(available, AfterRun(available, run))
  {
    hide Consistent, AfterRun;
    if "" !in names {
      SafeIsSilent(names, available);
      RunKeeps(available, run);
    } else {
      forall m | m in names ensures m == "" {
        if m != "" {
          assert Chain(names, [m], "");
          ContainsLast(Joined([m]), "");
          assert Joined([m]) + "" == Joined([m]);
        }
      }
      OnlyEmptyName(available, run);
      EmptyConsistent(available);
    }
  }

  // ---------------------------------------------------------------- unsafe names do harm

  /** The modules of a path, each depending on the next one only. */
  function Line(names: set<Name>, p: seq<Name>): (available: Modules)
    ensures available.Keys == names
  {
    map x | x in names :: Next(p, x)
  }

  /** What follows x in p. */
  function Next(p: seq<Name>, x: Name): (next: seq<Name>)
    ensures |next| <= 1
  {
    if |p| < 2 then []
    else if p[0] == x then [p[1]]
    else Next(p[1..], x)
  }

  function Rank(p: seq<Name>, x: Name): nat {
    if p == [] || p[0] == x then |p| else Rank(p[1..], x)
  }

  lemma {:induction false} NextAt(p: seq<Name>, i: nat)
    requires Different(p) && i < |p|
    ensures Next(p, p[i]) == if i + 1 < |p| then [p[i + 1]] else []
  {
    if i > 0 { NextAt(p[1..], i - 1); }
  }

  lemma {:induction false} NextRank(p: seq<Name>, x: Name, y: Name)
    requires Different(p) && Next(p, x) == [y]
    ensures y in p && Rank(p, y) < Rank(p, x)
  {
    if p[0] != x {
      NextRank(p[1..], x, y);
      var i :| 0 <= i < |p| - 1 && p[1..][i] == y;
      assert p[0] != p[i + 1];
    }
  }

  lemma LineFits(names: set<Name>, p: seq<Name>)
    requires Different(p) && forall x :: x in p ==> x in names
    ensures Fits(names, Line(names, p))
  {
    var available, rank := Line(names, p), x => Rank(p, x);
    forall m, d | m in available && d in available[m] ensures d in names && rank(d) < rank(m) {
      assert available[m] == [d];
      NextRank(p, m, d);
    }
    assert Ranked(Env(available, {}, {}), rank);
  }

  /** The guard finds p[k] in what leads to it, and nothing before. */
  ghost predicate FoundAt(p: seq<Name>, k: nat) {
    && 0 < k < |p| && Contains(Joined(p[..k]), p[k])
    && forall i :: 0 <= i < k ==> !Contains(Joined(p[..i]), p[i])
  }

  lemma {:induction false} FirstFound(p: seq<Name>, m: nat) returns (k: nat)
    requires 0 < m < |p| && Contains(Joined(p[..m]), p[m]) && p[0] != ""
    ensures FoundAt(p, k)
    decreases m
  {
    hide Contains, Joined;
    if j :| 0 < j < m && Contains(Joined(p[..j]), p[j]) {
      k := FirstFound(p, j);
    } else {
      k := m;
      assert p[..0] == [];
      EmptyJoined(p[0]);
    }
  }

  lemma LineAt(names: set<Name>, p: seq<Name>, i: nat, k: nat)
    requires Different(p) && (forall x :: x in p ==> x in names) && FoundAt(p, k) && i < k
    ensures var available := Line(names, p);
      && p[i] in available && available[p[i]] == [p[i + 1]] && p[i] != p[k]
      && !Contains(Joined(p[..i]), p[i]) && Joined(p[..i + 1]) == Joined(p[..i]) + p[i]
      && (i == k - 1 ==> Contains(Joined(p[..i + 1]), p[i + 1]))
  {
    hide Contains, Joined;
    assert p[i] in names;
    NextAt(p, i);
    assert p[..i + 1] == p[..i] + [p[i]];
    JoinedMore(p[..i], p[i]);
  }

  /** Loading along the line stops at the name found: it stays out, and what depends on it comes in. */
  lemma {:induction false} LineLoads(names: set<Name>, p: seq<Name>, i: nat, k: nat)
    requires Different(p) && (forall x :: x in p ==> x in names) && FoundAt(p, k) && i < k
    ensures var out := Load(Env(Line(names, p), {}, {}), Registry({}, map[]), p[i], Joined(p[..i]));
      out.ok && p[k - 1] in out.registry.loaded && p[k] !in out.registry.loaded
    decreases k - i
  {
    hide *;
    FoundInside(p, k);
    LineAt(names, p, i, k);
    var e, r, guard := Env(Line(names, p), {}, {}), Registry({}, map[]), Joined(p[..i + 1]);
    if i < k - 1 { LineLoads(names, p, i + 1, k); } else { GuardStops(e, r, p[i + 1], guard); }
    LoadThrough(e, r, p[i], p[i + 1], Joined(p[..i]));
  }

  lemma FoundInside(p: seq<Name>, k: nat)
    requires FoundAt(p, k)
    ensures 0 < k < |p|
  {
    hide Contains, Joined;
  }

  lemma GuardStops(e: Env, r: Registry, name: Name, loading: string)
    requires Contains(loading, name)
    ensures Load(e, r, name, loading) == Result(r, true)
  {
    hide Contains;
  }

  /** Loading a module with one dependency adds the module to what loading the dependency gives. */
  lemma LoadThrough(e: Env, r: Registry, name: Name, dep: Name, loading: string)
    requires !Contains(loading, name) && name !in r.loaded && name in e.available && e.available[name] == [dep]
    requires e.broken == {} && Load(e, r, dep, loading + name).ok
    ensures var out := Load(e, r, name, loading);
      out.ok && out.registry.loaded == Load(e, r, dep, loading + name).registry.loaded + {name}
  {
    OneLoaded(e, r, name, dep, loading + name);
    hide Contains, LoadAll, Registry.AddReverse;
    AddedOnly(Load(e, r, dep, loading + name).registry, dep, name);
  }

  lemma OneLoaded(e: Env, r: Registry, name: Name, dep: Name, loading: string)
    requires Load(e, r, dep, loading).ok
    ensures LoadAll(e, r, name, [dep], loading) == Result(Load(e, r, dep, loading).registry.AddReverse(dep, name), true)
  {
    hide Load, Registry.AddReverse;
    assert [dep][..0] == [];
  }

  lemma LoadedFirst(available: Modules, name: Name)
    ensures AfterRun(available, [LoadRequest(name, {})]) == Load(Env(available, {}, {}), Registry({}, map[]), name, "").registry
  {
    hide Load;
    var run := [LoadRequest(name, {})];
    assert run[..|run| - 1] == [];
    assert AfterRun(available, []) == Registry({}, map[]);
  }

  /** Names of which one occurs in joined others can belong to modules, each with one dependency at most, of
      which one stays loaded without its dependency. */
  lemma UnsafeBreaks(names: set<Name>) returns (available: Modules, name: Name)
    requires !SafeNames(names)
    ensures Fits(names, available) && available.Keys == names && name in names
    ensures forall m :: m in names ==> |available[m]| <= 1
    ensures !Consistent(available, AfterRun(available, [LoadRequest(name, {})]))
  {
    assert Joined([]) == "";
    hide Contains, Joined;
    var path, n :| Chain(names, path, n) && Contains(Joined(path), n);
    var p := path + [n];
    assert p[..|path|] == path;
    if p[0] == "" {
      assert p[1] != "" by { assert p[0] != p[1]; }
      p := [p[1], ""];
      assert p[..1] == [p[1 - 1]];
      ContainsLast(Joined(p[..1]), "");
      assert Joined(p[..1]) + "" == Joined(p[..1]);
    }
    var k := FirstFound(p, |p| - 1);
    name, available := p[0], Line(names, p);
    LineFits(names, p);
    LineLoads(names, p, 0, k);
    assert p[..0] == [];
    NextAt(p, k - 1);
    LoadedFirst(available, name);
    var r := AfterRun(available, [LoadRequest(name, {})]);
    assert p[k] in available[p[k - 1]] && p[k - 1] in r.loaded && p[k] !in r.loaded;
  }

  /** Every run over every acyclic set of modules with these names keeps the loaded set closed if and only if
      no name occurs in joined others. */
  lemma SafeNamesIff(names: set<Name>)
    ensures (forall available, run :: Fits(names, available) ==> Consistent(available, AfterRun(available, run)))
       <==> SafeNames(names)
  {
    if SafeNames(names) {
      forall available, run | Fits(names, available) ensures Consistent(available, AfterRun(available, run)) {
        SafeRunKeeps(names, available, run);
      }
    } else {
      var available, name := UnsafeBreaks(names);
    }
  }
}
