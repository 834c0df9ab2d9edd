/** Loading the segments of a channel in dependency order. */
module ChannelModule {
  import opened Bits

  type Name = string

  datatype Option<T> = None | Some(value: T)

  /** What the configuration says about a segment. */
  datatype Segment = Segment(primaryOutput: Option<Name>, auxOutput: Option<Name>, primaryOutputs: seq<Name>,
                             hasDll: bool, autoLoad: Option<bool>) {

    /** A setting names the target. */
    predicate HasTarget(target: Name) {
      primaryOutput == Some(target) || auxOutput == Some(target) || target in primaryOutputs
    }

    /** The targets in the order in which they are visited. */
    function Outputs(): (outputs: seq<Name>)
      ensures forall o :: o in outputs <==> HasTarget(o)
    {
      (if primaryOutput.Some? then [primaryOutput.value] else [])
      + (if auxOutput.Some? then [auxOutput.value] else [])
      + primaryOutputs
    }

    predicate Loadable(): (loadable: bool)
      ensures loadable <==> hasDll && autoLoad != Some(false)
    {
      hasDll && (autoLoad.None? || autoLoad.value)
    }
  }

  type Config = map<Name, Segment>

  predicate Edge(c: Config, a: Name, b: Name) { a in c && c[a].HasTarget(b) }

  /** A sequence of names joined by edges. */
  predicate Walk(c: Config, p: seq<Name>) {
    p != [] && forall i :: 0 <= i < |p| - 1 ==> Edge(c, p[i], p[i + 1])
  }

  /** b is reached from a by at least one edge. */
  ghost predicate Reaches(c: Config, a: Name, b: Name) {
    exists p :: |p| >= 2 && Walk(c, p) && p[0] == a && p[|p| - 1] == b
  }

  lemma EdgeReaches(c: Config, a: Name, b: Name)
    requires Edge(c, a, b)
    ensures Reaches(c, a, b)
  {
    assert Walk(c, [a, b]);
  }

  lemma ReachesTrans(c: Config, a: Name, b: Name, d: Name)
    requires Reaches(c, a, b) && Reaches(c, b, d)
    ensures Reaches(c, a, d)
  {
    var p :| |p| >= 2 && Walk(c, p) && p[0] == a && p[|p| - 1] == b;
    var q :| |q| >= 2 && Walk(c, q) && q[0] == b && q[|q| - 1] == d;
    var r := p + q[1..];
    forall i | 0 <= i < |r| - 1 ensures Edge(c, r[i], r[i + 1]) {
      if i < |p| - 1 {
        assert Edge(c, p[i], p[i + 1]);
      } else {
        assert Edge(c, q[i - (|p| - 1)], q[i - (|p| - 1) + 1]);
      }
    }
    assert Walk(c, r);
  }

  /** Every new name is configured and has its targets in the set. */
  ghost predicate Closed(c: Config, added: set<Name>, all: set<Name>) {
    forall x :: x in added ==> x in c && forall o :: c[x].HasTarget(o) ==> o in all
  }

  /** The names added to deps are reached from `from`. */
  ghost predicate Reached(c: Config, from: Name, added: set<Name>) {
    forall x :: x in added ==> Reaches(c, from, x)
  }

  /** Add the targets of a segment, and theirs, to the set; false when a target is not configured, which throws. */
  method GetDependencies(c: Config, seg: Name, deps: set<Name>) returns (all: set<Name>, ok: bool)
    requires seg in c
    ensures deps <= all && Reached(c, seg, all - deps)
    ensures ok ==> Closed(c, all - deps, all) && forall o :: c[seg].HasTarget(o) ==> o in all
    ensures !ok ==> exists x :: x in all - deps && x !in c
    decreases |c.Keys - deps|, 1
  {
    var outputs := c[seg].Outputs();
    all, ok := deps, true;
    for i := 0 to |outputs|
      invariant ok && deps <= all && Reached(c, seg, all - deps) && Closed(c, all - deps, all)
      invariant forall k :: 0 <= k < i ==> outputs[k] in all
    {
      FewerLeft(c, deps, all);
      ghost var before := all;
      all, ok := AddDependency(c, outputs[i], seg, all);
      if !ok {
        ghost var x :| x in all - before && x !in c;
        assert x in all - deps;
        return;
      }
      assert all - deps == (before - deps) + (all - before);
    }
  }

  /** Add one name and what it depends on, unless it is there already. */
  method AddDependency(c: Config, dep: Name, seg: Name, deps: set<Name>) returns (all: set<Name>, ok: bool)
    requires Edge(c, seg, dep)
    ensures deps <= all && Reached(c, seg, all - deps)
    ensures ok ==> Closed(c, all - deps, all) && dep in all
    ensures !ok ==> exists x :: x in all - deps && x !in c
    decreases |c.Keys - deps|, 0
  {
    all, ok := deps, true;
    if dep !in deps {
      EdgeReaches(c, seg, dep);
      all := deps + {dep};
      if dep !in c {
        assert dep in all - deps;
        return all, false;
      }
      OneLess(c, deps, dep);
      ghost var before := all;
      all, ok := GetDependencies(c, dep, all);
      assert all - deps == (all - before) + {dep};
      forall x | x in all - before ensures Reaches(c, seg, x) { ReachesTrans(c, seg, dep, x); }
      if !ok {
        ghost var x :| x in all - before && x !in c;
        assert x in all - deps;
      }
    }
  }

  lemma FewerLeft(c: Config, deps: set<Name>, all: set<Name>)
    requires deps <= all
    ensures |c.Keys - all| <= |c.Keys - deps|
  {
    SubsetCount(c.Keys - all, c.Keys - deps);
  }

  lemma OneLess(c: Config, deps: set<Name>, dep: Name)
    requires dep in c && dep !in deps
    ensures |c.Keys - (deps + {dep})| < |c.Keys - deps|
  {
    assert c.Keys - deps == (c.Keys - (deps + {dep})) + {dep};
  }

  /** all is exactly what the segment depends on. */
  ghost predicate Exact(c: Config, seg: Name, all: set<Name>) {
    forall x :: x in all <==> Reaches(c, seg, x)
  }

  lemma WalkPrefix(c: Config, p: seq<Name>, n: nat)
    requires Walk(c, p) && 0 < n <= |p|
    ensures Walk(c, p[..n])
  {
    forall i | 0 <= i < n - 1 ensures Edge(c, p[..n][i], p[..n][i + 1]) { assert Edge(c, p[i], p[i + 1]); }
  }

  lemma {:induction false} WalkStays(c: Config, seg: Name, all: set<Name>, p: seq<Name>)
    requires seg in c && Closed(c, all, all) && forall o :: c[seg].HasTarget(o) ==> o in all
    requires |p| >= 2 && Walk(c, p) && p[0] == seg
    ensures p[|p| - 1] in all
    decreases |p|
  {
    var n := |p| - 1;
    assert Edge(c, p[n - 1], p[n]);
    if n > 1 {
      assert Walk(c, p[..n]) by { WalkPrefix(c, p, n); }
      WalkStays(c, seg, all, p[..n]);
    }
  }

  lemma ClosureExact(c: Config, seg: Name, all: set<Name>)
    requires seg in c && Closed(c, all, all) && Reached(c, seg, all)
    requires forall o :: c[seg].HasTarget(o) ==> o in all
    ensures Exact(c, seg, all)
  {
    forall x | Reaches(c, seg, x) ensures x in all {
      var p :| |p| >= 2 && Walk(c, p) && p[0] == seg && p[|p| - 1] == x;
      WalkStays(c, seg, all, p);
    }
  }

  /** Started from the empty set the search finds exactly the reachable names, cycles or not, and it fails
      exactly when a reachable name is not configured. */
  method Dependencies(c: Config, seg: Name) returns (all: set<Name>, ok: bool)
    requires seg in c
    ensures ok ==> Exact(c, seg, all)
    ensures ok <==> forall x :: Reaches(c, seg, x) ==> x in c
  {
    all, ok := GetDependencies(c, seg, {});
    assert all - {} == all;
    if ok { ClosureExact(c, seg, all); }
  }

  // ---------------------------------------------------------------- sorting

  datatype Loading = Loading(name: Name, deps: set<Name>)

  /** The comparator of the sort. It is not strict: a segment that does not depend on itself goes before itself. */
  predicate DoesNotDependOn(dependant: Loading, provider: Loading) {
    provider.name !in dependant.deps && |dependant.deps| <= |provider.deps|
  }

  /** Merging two lists: from the second whenever the comparator puts its head first. */
  function Merge(a: seq<Loading>, b: seq<Loading>): (m: seq<Loading>)
    ensures multiset(m) == multiset(a) + multiset(b)
    decreases |a| + |b|
  {
    if a == [] then b
    else if b == [] then a
    else if DoesNotDependOn(b[0], a[0]) then
      assert b == [b[0]] + b[1..];
      [b[0]] + Merge(a, b[1..])
    else
      assert a == [a[0]] + a[1..];
      [a[0]] + Merge(a[1..], b)
  }

  function Sorted(s: seq<Loading>): (r: seq<Loading>)
    ensures multiset(r) == multiset(s)
    decreases |s|
  {
    if |s| < 2 then s
    else
      assert s == s[..|s| / 2] + s[|s| / 2..];
      Merge(Sorted(s[..|s| / 2]), Sorted(s[|s| / 2..]))
  }

  /** The order in which single entries are merged, whatever order a list sort chooses. */
  datatype Merges = One(x: Loading) | Merged(left: Merges, right: Merges) {
    function Entries(): seq<Loading> {
      match this
      case One(x) => [x]
      case Merged(left, right) => left.Entries() + right.Entries()
    }

    function Outcome(): seq<Loading> {
      match this
      case One(x) => [x]
      case Merged(left, right) => Merge(left.Outcome(), right.Outcome())
    }
  }

  lemma MergedIs(left: Merges, right: Merges)
    ensures Merged(left, right).Entries() == left.Entries() + right.Entries()
    ensures Merged(left, right).Outcome() == Merge(left.Outcome(), right.Outcome())
  {
    hide Merge;
  }

  lemma {:induction false} OutcomeEntries(t: Merges)
    ensures multiset(t.Outcome()) == multiset(t.Entries())
  {
    hide Merge;
    if t.Merged? {
      OutcomeEntries(t.left);
      OutcomeEntries(t.right);
    }
  }

  lemma SortHalves(s: seq<Loading>, p: seq<Loading>, q: seq<Loading>)
    requires s == p + q && |p| == |s| / 2 && |s| >= 2
    ensures Sorted(s) == Merge(Sorted(p), Sorted(q))
  {
    hide Merge;
    assert s[..|s| / 2] == p && s[|s| / 2..] == q;
  }

  lemma {:induction false} SortedIsOutcome(s: seq<Loading>) returns (t: Merges)
    requires s != []
    ensures t.Entries() == s && t.Outcome() == Sorted(s)
    decreases |s|
  {
    if |s| < 2 {
      t := One(s[0]);
    } else {
      hide *;
      var p, q := s[..|s| / 2], s[|s| / 2..];
      var left := SortedIsOutcome(p);
      var right := SortedIsOutcome(q);
      t := Merged(left, right);
      MergedSorted(s, p, q, left, right);
    }
  }

  lemma MergedSorted(s: seq<Loading>, p: seq<Loading>, q: seq<Loading>, left: Merges, right: Merges)
    requires |s| >= 2 && p == s[..|s| / 2] && q == s[|s| / 2..]
    requires left.Entries() == p && left.Outcome() == Sorted(p) && right.Entries() == q && right.Outcome() == Sorted(q)
    ensures Merged(left, right).Entries() == s && Merged(left, right).Outcome() == Sorted(s)
  {
    hide *;
    MergedIs(left, right);
    assert s == p + q;
    SortHalves(s, p, q);
  }

  /** x and y stand in the list, at two places. */
  predicate Both(m: multiset<Loading>, x: Loading, y: Loading) {
    x in m && y in m && (x == y ==> m[x] >= 2)
  }

  /** The comparator is total and transitive between the entries. */
  ghost predicate Steady(m: multiset<Loading>) {
    && (forall x, y :: Both(m, x, y) ==> DoesNotDependOn(x, y) || DoesNotDependOn(y, x))
    && (forall x, y, z :: Both(m, x, z) && y in m && DoesNotDependOn(x, y) && DoesNotDependOn(y, z) ==> DoesNotDependOn(x, z))
  }

  /** Every entry may stand before every later one. */
  predicate Ordered(s: seq<Loading>) {
    forall i, j :: 0 <= i < j < |s| ==> DoesNotDependOn(s[i], s[j])
  }

  predicate First(x: Loading, s: seq<Loading>) {
    forall y :: y in s ==> DoesNotDependOn(x, y)
  }

  lemma HeadFirst(s: seq<Loading>)
    requires s != [] && Ordered(s)
    ensures First(s[0], s[1..]) && Ordered(s[1..]) && s == [s[0]] + s[1..]
  {
    hide DoesNotDependOn;
  }

  /** An entry that goes before the head of a list goes before all of it. */
  lemma FirstTrans(m: multiset<Loading>, x: Loading, s: seq<Loading>)
    requires Steady(m) && s != [] && Ordered(s) && DoesNotDependOn(x, s[0])
    requires multiset{x} + multiset(s) <= m
    ensures First(x, s)
  {
    hide DoesNotDependOn;
    forall y | y in s ensures DoesNotDependOn(x, y) {
      var i :| 0 <= i < |s| && s[i] == y;
      assert y in multiset(s) && s[0] in multiset(s) && Both(m, x, y);
      if i > 0 { assert DoesNotDependOn(s[0], s[i]); }
    }
  }

  lemma Prepended(x: Loading, m: seq<Loading>, a: seq<Loading>, b: seq<Loading>)
    requires Ordered(m) && multiset(m) == multiset(a) + multiset(b) && First(x, a) && First(x, b)
    ensures Ordered([x] + m)
  {
    hide DoesNotDependOn;
    forall i | 0 <= i < |m| ensures DoesNotDependOn(x, m[i]) { assert m[i] in multiset(m); }
  }

  lemma SteadyPart(s: multiset<Loading>, t: multiset<Loading>)
    requires Steady(t) && s <= t
    ensures Steady(s)
  {
    hide DoesNotDependOn;
    assert forall x, y :: Both(s, x, y) ==> Both(t, x, y);
  }

  lemma {:induction false} MergeOrders(a: seq<Loading>, b: seq<Loading>)
    requires Ordered(a) && Ordered(b) && Steady(multiset(a) + multiset(b))
    ensures Ordered(Merge(a, b))
    decreases |a| + |b|
  {
    if a != [] && b != [] {
      var all := multiset(a) + multiset(b);
      HeadFirst(a);
      HeadFirst(b);
      assert a[0] in multiset(a) && b[0] in multiset(b) && Both(all, a[0], b[0]);
      hide DoesNotDependOn, Ordered, First, Both;
      if DoesNotDependOn(b[0], a[0]) {
        SteadyPart(multiset(a) + multiset(b[1..]), all);
        MergeOrders(a, b[1..]);
        FirstTrans(all, b[0], a);
        Prepended(b[0], Merge(a, b[1..]), a, b[1..]);
      } else {
        SteadyPart(multiset(a[1..]) + multiset(b), all);
        MergeOrders(a[1..], b);
        FirstTrans(all, a[0], b);
        Prepended(a[0], Merge(a[1..], b), a[1..], b);
      }
    }
  }

  lemma {:induction false} OutcomeOrdered(t: Merges)
    requires Steady(multiset(t.Entries()))
    ensures Ordered(t.Outcome())
  {
    hide Steady, Merge, DoesNotDependOn;
    if t.Merged? {
      OutcomeEntries(t.left);
      OutcomeEntries(t.right);
      SteadyPart(multiset(t.left.Entries()), multiset(t.Entries()));
      SteadyPart(multiset(t.right.Entries()), multiset(t.Entries()));
      OutcomeOrdered(t.left);
      OutcomeOrdered(t.right);
      MergeOrders(t.left.Outcome(), t.right.Outcome());
    }
  }

  // ---------------------------------------------------------------- topological order

  /** No segment is loaded before one it outputs to, directly or through others. */
  ghost predicate Topological(c: Config, order: seq<Name>) {
    forall i, j :: 0 <= i < j < |order| ==> !Reaches(c, order[i], order[j])
  }

  function Names(s: seq<Loading>): (r: seq<Name>)
    ensures |r| == |s| && forall i :: 0 <= i < |s| ==> r[i] == s[i].name
  {
    seq(|s|, i requires 0 <= i < |s| => s[i].name)
  }

  ghost predicate AllExact(c: Config, s: multiset<Loading>) {
    forall x :: x in s ==> Exact(c, x.name, x.deps)
  }

  /** A dependency has strictly fewer dependencies. */
  predicate Coherent(s: multiset<Loading>) {
    forall a, b :: a in s && b in s && b.name in a.deps ==> |b.deps| < |a.deps|
  }

  lemma NestedSets(c: Config, s: multiset<Loading>, a: Loading, b: Loading)
    requires AllExact(c, s) && a in s && b in s && b.name in a.deps
    ensures b.deps <= a.deps && |b.deps| <= |a.deps|
    ensures |b.deps| == |a.deps| ==> b.deps == a.deps
    ensures b.name !in b.deps ==> |b.deps| < |a.deps|
  {
    assert Exact(c, a.name, a.deps) && Exact(c, b.name, b.deps);
    forall x | x in b.deps ensures x in a.deps { ReachesTrans(c, a.name, b.name, x); }
    SubsetCount(b.deps, a.deps);
    assert a.deps == b.deps + (a.deps - b.deps);
  }

  /** Exact dependency sets shrink strictly along dependencies if and only if no listed segment reaches itself. */
  lemma CoherentIff(c: Config, s: multiset<Loading>)
    requires AllExact(c, s)
    ensures Coherent(s) <==> forall x :: x in s ==> !Reaches(c, x.name, x.name)
  {
    hide Reaches;
    assert forall x :: x in s ==> (x.name in x.deps <==> Reaches(c, x.name, x.name)) by {
      forall x | x in s ensures x.name in x.deps <==> Reaches(c, x.name, x.name) { assert Exact(c, x.name, x.deps); }
    }
    if forall x :: x in s ==> !Reaches(c, x.name, x.name) {
      forall a, b | a in s && b in s && b.name in a.deps ensures |b.deps| < |a.deps| { NestedSets(c, s, a, b); }
    }
  }

  /** No two listed segments reach each other, and when one reaches another with equally many dependencies, all
      listed segments with that many have the same ones. */
  ghost predicate Orderly(s: multiset<Loading>) {
    forall a, b :: Both(s, a, b) && b.name in a.deps ==>
      a.name !in b.deps && (|b.deps| == |a.deps| ==> forall x :: x in s && |x.deps| == |a.deps| ==> x.deps == a.deps)
  }

  lemma CoherentIsOrderly(s: multiset<Loading>)
    requires Coherent(s)
    ensures Orderly(s)
  {
  }

  lemma OrderlyIsSteady(c: Config, s: multiset<Loading>)
    requires AllExact(c, s) && Orderly(s)
    ensures Steady(s)
  {
    hide AllExact;
    forall x, y | Both(s, x, y) ensures DoesNotDependOn(x, y) || DoesNotDependOn(y, x) {
      if y.name in x.deps { NestedSets(c, s, x, y); }
      if x.name in y.deps { NestedSets(c, s, y, x); assert Both(s, y, x); }
    }
    forall x, y, z | Both(s, x, z) && y in s && DoesNotDependOn(x, y) && DoesNotDependOn(y, z) ensures DoesNotDependOn(x, z) {
      if z.name in x.deps { NestedSets(c, s, x, z); }
    }
  }

  lemma OrderedIsTopological(c: Config, r: seq<Loading>)
    requires AllExact(c, multiset(r)) && Ordered(r)
    ensures Topological(c, Names(r))
  {
    hide Reaches;
    forall i, j | 0 <= i < j < |r| ensures !Reaches(c, r[i].name, r[j].name) {
      assert r[i] in multiset(r) && DoesNotDependOn(r[i], r[j]);
      assert Exact(c, r[i].name, r[i].deps);
    }
  }

  /** However the sort merges, it puts every segment behind those it depends on. */
  lemma OutcomeTopological(c: Config, t: Merges)
    requires AllExact(c, multiset(t.Entries())) && Orderly(multiset(t.Entries()))
    ensures Topological(c, Names(t.Outcome()))
  {
    hide AllExact, Topological, Orderly, Steady, Ordered;
    OrderlyIsSteady(c, multiset(t.Entries()));
    OutcomeOrdered(t);
    OutcomeEntries(t);
    OrderedIsTopological(c, t.Outcome());
  }

  lemma SortIsTopological(c: Config, s: seq<Loading>)
    requires AllExact(c, multiset(s)) && forall x :: x in s ==> !Reaches(c, x.name, x.name)
    ensures Topological(c, Names(Sorted(s)))
  {
    assert forall x :: x in multiset(s) ==> x in s;
    hide AllExact, Topological, Orderly, Coherent, Merge;
    CoherentIff(c, multiset(s));
    CoherentIsOrderly(multiset(s));
    if s == [] {
      TopologicalEmpty(c);
    } else {
      var t := SortedIsOutcome(s);
      OutcomeTopological(c, t);
    }
  }

  lemma TopologicalEmpty(c: Config)
    ensures Topological(c, Names([]))
  {
  }

  // ---------------------------------------------------------------- the exact condition

  /** a stands before b. */
  predicate Before(s: seq<Loading>, a: Loading, b: Loading) {
    exists i, j :: 0 <= i < j < |s| && s[i] == a && s[j] == b
  }

  lemma BeforeBreaks(c: Config, r: seq<Loading>, a: Loading, b: Loading)
    requires Before(r, a, b) && Reaches(c, a.name, b.name)
    ensures !Topological(c, Names(r))
  {
    hide Reaches;
    var i, j :| 0 <= i < j < |r| && r[i] == a && r[j] == b;
    assert Names(r)[i] == a.name && Names(r)[j] == b.name;
  }

  lemma {:induction false} OneBefore(s: seq<Loading>, a: Loading, b: Loading)
    requires Both(multiset(s), a, b)
    ensures Before(s, a, b) || Before(s, b, a)
    decreases |s|
  {
    var n, m := |s| - 1, multiset(s);
    assert s == s[..n] + [s[n]];
    assert m == multiset(s[..n]) + multiset{s[n]};
    if s[n] == a {
      assert b in multiset(s[..n]);
      var i :| 0 <= i < n && s[..n][i] == b;
      assert s[i] == b && s[n] == a;
    } else if s[n] == b {
      assert a in multiset(s[..n]);
      var i :| 0 <= i < n && s[..n][i] == a;
      assert s[i] == a && s[n] == b;
    } else {
      assert Both(multiset(s[..n]), a, b);
      OneBefore(s[..n], a, b);
      if Before(s[..n], a, b) {
        var i, j :| 0 <= i < j < n && s[..n][i] == a && s[..n][j] == b;
        assert s[i] == a && s[j] == b;
      } else {
        var i, j :| 0 <= i < j < n && s[..n][i] == b && s[..n][j] == a;
        assert s[i] == b && s[j] == a;
      }
    }
  }

  lemma BeforeTail(s: seq<Loading>, a: Loading, b: Loading)
    requires s != []
    ensures Before(s, a, b) <==> (s[0] == a && b in s[1..]) || Before(s[1..], a, b)
  {
    var t := s[1..];
    if Before(s, a, b) {
      var i, j :| 0 <= i < j < |s| && s[i] == a && s[j] == b;
      assert t[j - 1] == b;
      if i > 0 { assert t[i - 1] == a; }
    }
    if s[0] == a && b in t {
      var j :| 0 <= j < |t| && t[j] == b;
      assert s[j + 1] == b;
    }
    if Before(t, a, b) {
      var i, j :| 0 <= i < j < |t| && t[i] == a && t[j] == b;
      assert s[i + 1] == a && s[j + 1] == b;
    }
  }

  /** Merging keeps the order of the first list. */
  lemma {:induction false} MergeKeepsOrder(p: seq<Loading>, q: seq<Loading>, a: Loading, b: Loading)
    requires Before(p, a, b)
    ensures Before(Merge(p, q), a, b)
    decreases |p| + |q|
  {
    hide DoesNotDependOn, Before;
    BeforeNonempty(p, a, b);
    if q != [] {
      var m := Merge(p, q);
      if DoesNotDependOn(q[0], p[0]) {
        MergeKeepsOrder(p, q[1..], a, b);
        assert m[1..] == Merge(p, q[1..]);
        BeforeTail(m, a, b);
      } else {
        var rest := Merge(p[1..], q);
        assert m[1..] == rest && m[0] == p[0];
        BeforeTail(p, a, b);
        BeforeTail(m, a, b);
        if Before(p[1..], a, b) {
          MergeKeepsOrder(p[1..], q, a, b);
        } else {
          assert b in multiset(p[1..]) && b in multiset(rest);
        }
      }
    }
  }

  lemma BeforeNonempty(s: seq<Loading>, a: Loading, b: Loading)
    requires Before(s, a, b)
    ensures s != []
  {
  }

  /** The list without one of its entries. */
  lemma Without(s: seq<Loading>, x: Loading) returns (r: seq<Loading>)
    requires x in multiset(s)
    ensures multiset(s) == multiset(r) + multiset{x}
  {
    var i :| 0 <= i < |s| && s[i] == x;
    r := s[..i] + s[i + 1..];
    assert s == s[..i] + [x] + s[i + 1..];
  }

  /** A tie between dependant and dependency is undone by a third entry between them: no two neighbours are out
      of order, and the dependant comes first. */
  lemma TieBreaks(c: Config, s: seq<Loading>, a: Loading, b: Loading, x: Loading) returns (t: Merges)
    requires AllExact(c, multiset(s)) && a in s && b in s && x in s && a != b
    requires b.name in a.deps && |a.deps| == |b.deps| == |x.deps| && x.deps != a.deps
    ensures multiset(t.Entries()) == multiset(s) && Before(t.Outcome(), a, b)
  {
    var m := multiset(s);
    NestedSets(c, m, a, b);
    if b.name in x.deps { NestedSets(c, m, x, b); }
    if x.name in a.deps { NestedSets(c, m, a, x); }
    assert DoesNotDependOn(x, b) && DoesNotDependOn(a, x) && x != a && x != b;
    hide *;
    var front := ThreeInOrder(a, b, x);
    var rest := WithoutThree(s, b, x, a);
    t := Completed(front, rest, a, b);
    assert multiset([b, x, a]) == multiset{b, x, a};
  }

  lemma WithoutThree(s: seq<Loading>, a: Loading, b: Loading, x: Loading) returns (r: seq<Loading>)
    requires a in s && b in s && x in s && a != b && x != a && x != b
    ensures multiset(s) == multiset{a, b, x} + multiset(r)
  {
    assert a in multiset(s) && b in multiset(s) && x in multiset(s);
    var p := Without(s, a);
    assert b in multiset(p) + multiset{a} && x in multiset(p) + multiset{a};
    var q := Without(p, b);
    assert x in multiset(q) + multiset{b};
    r := Without(q, x);
  }

  /** The other entries merged behind. */
  lemma Completed(front: Merges, rest: seq<Loading>, a: Loading, b: Loading) returns (t: Merges)
    requires Before(front.Outcome(), a, b)
    ensures multiset(t.Entries()) == multiset(front.Entries()) + multiset(rest) && Before(t.Outcome(), a, b)
  {
    hide *;
    if rest == [] {
      t := front;
    } else {
      var u := SortedIsOutcome(rest);
      t := Merged(front, u);
      MergedIs(front, u);
      MergeKeepsOrder(front.Outcome(), u.Outcome(), a, b);
    }
  }

  lemma ThreeInOrder(a: Loading, b: Loading, x: Loading) returns (t: Merges)
    requires DoesNotDependOn(x, b) && DoesNotDependOn(a, x)
    ensures t.Entries() == [b, x, a] && Before(t.Outcome(), a, b)
  {
    hide *;
    OneIs(b);
    t := Ahead(One(b), x, [b]);
    t := Ahead(t, a, [x] + [b]);
    assert [b] + [x] + [a] == [b, x, a];
    var r := [a] + ([x] + [b]);
    MakeBefore(r, 0, 2);
  }

  /** Merging a single entry that the comparator puts first. */
  lemma Ahead(t: Merges, y: Loading, r: seq<Loading>) returns (u: Merges)
    requires t.Outcome() == r != [] && DoesNotDependOn(y, r[0])
    ensures u.Entries() == t.Entries() + [y] && u.Outcome() == [y] + r
  {
    hide *;
    u := Merged(t, One(y));
    MergedIs(t, One(y));
    OneIs(y);
    MergeStep(r, y, [], [y]);
  }

  lemma OneIs(x: Loading)
    ensures One(x).Entries() == One(x).Outcome() == [x]
  {
  }

  lemma MakeBefore(s: seq<Loading>, i: nat, j: nat)
    requires i < j < |s|
    ensures Before(s, s[i], s[j])
  {
  }

  lemma MergeStep(a: seq<Loading>, y: Loading, b: seq<Loading>, s: seq<Loading>)
    requires a != [] && DoesNotDependOn(y, a[0]) && s == [y] + b
    ensures Merge(a, s) == [y] + Merge(a, b) && Merge(a, []) == a
  {
    hide DoesNotDependOn;
    assert s[1..] == b;
  }

  /** For exact sets the sort is topological, whatever the order of the list and of the merges, if and only if
      the list is orderly. */
  lemma OrderlyIff(c: Config, s: seq<Loading>)
    requires AllExact(c, multiset(s))
    ensures (forall t: Merges :: multiset(t.Entries()) == multiset(s) ==> Topological(c, Names(t.Outcome()))) <==> Orderly(multiset(s))
  {
    var m := multiset(s);
    if Orderly(m) {
      forall t: Merges | multiset(t.Entries()) == m ensures Topological(c, Names(t.Outcome())) { OutcomeTopological(c, t); }
    } else {
      var t := DisorderBreaks(c, s);
    }
  }

  lemma DisorderBreaks(c: Config, s: seq<Loading>) returns (t: Merges)
    requires AllExact(c, multiset(s)) && !Orderly(multiset(s))
    ensures multiset(t.Entries()) == multiset(s) && !Topological(c, Names(t.Outcome()))
  {
    var m := multiset(s);
    var a, b :| Both(m, a, b) && b.name in a.deps
      && (a.name in b.deps || (|b.deps| == |a.deps| && exists x :: x in m && |x.deps| == |a.deps| && x.deps != a.deps));
    assert Exact(c, a.name, a.deps) && Exact(c, b.name, b.deps);
    hide Reaches, Topological, Before;
    if a.name in b.deps {
      t := SortedIsOutcome(s);
      OneBefore(t.Outcome(), a, b);
      if Before(t.Outcome(), a, b) { BeforeBreaks(c, t.Outcome(), a, b); } else { BeforeBreaks(c, t.Outcome(), b, a); }
    } else {
      var x :| x in m && |x.deps| == |a.deps| && x.deps != a.deps;
      t := TieBreaks(c, s, a, b, x);
      BeforeBreaks(c, t.Outcome(), a, b);
    }
  }

  function Output(target: Name): Segment { Segment(Some(target), None, [], true, None) }

  lemma OneOutput(target: Name)
    ensures Output(target).Outputs() == [target]
  {
  }

  /** A segment whose closure is the one name that it outputs to. */
  lemma OneTarget(c: Config, seg: Name, target: Name)
    requires seg in c && c[seg] == Output(target)
    requires target in c && forall o :: c[target].HasTarget(o) ==> o == target
    ensures Exact(c, seg, {target}) && Reaches(c, seg, target)
  {
    OneOutput(target);
    EdgeReaches(c, seg, target);
    ClosureExact(c, seg, {target});
  }

  /** A channel in which b outputs to itself. */
  function SelfOutput(): Config {
    map["a" := Output("b"), "b" := Output("b"), "x" := Output("z"), "y" := Output("z"),
        "z" := Segment(None, None, [], false, None)]
  }

  lemma SelfOutputExact()
    ensures var c := SelfOutput();
      Exact(c, "a", {"b"}) && Exact(c, "b", {"b"}) && Exact(c, "x", {"z"}) && Exact(c, "y", {"z"}) && Reaches(c, "a", "b")
  {
    hide Reaches, Exact;
    var c := SelfOutput();
    OneOutput("b");
    OneTarget(c, "a", "b");
    OneTarget(c, "b", "b");
    OneTarget(c, "x", "z");
    OneTarget(c, "y", "z");
  }

  lemma SelfOutputLoads()
    ensures var c := SelfOutput();
      {"b", "z"} <= c.Keys && forall n :: n in {"a", "b", "x", "y"} ==> n in c && c[n].Loadable()
  {
  }

  lemma Ties(a: Loading, b: Loading, x: Loading, y: Loading)
    requires a == Loading("a", {"b"}) && b == Loading("b", {"b"}) && x == Loading("x", {"z"}) && y == Loading("y", {"z"})
    ensures DoesNotDependOn(x, b) && DoesNotDependOn(y, a) && DoesNotDependOn(y, x) && DoesNotDependOn(a, x)
  {
  }

  /** All loadable and with all targets configured, they are sorted with a, which outputs to b, before b. */
  lemma NeedsAcyclic() returns (c: Config, s: seq<Loading>)
    ensures AllExact(c, multiset(s)) && !Topological(c, Names(Sorted(s)))
    ensures forall x :: x in s ==> x.name in c && c[x.name].Loadable() && x.deps <= c.Keys
  {
    hide Reaches, Exact, Topological, Sorted, DoesNotDependOn, Before, SelfOutput, Segment.Loadable;
    c := SelfOutput();
    var a, b, x, y := Loading("a", {"b"}), Loading("b", {"b"}), Loading("x", {"z"}), Loading("y", {"z"});
    s := [b, x, a, y];
    SelfOutputExact();
    SelfOutputLoads();
    FourExact(c, a, b, x, y);
    Ties(a, b, x, y);
    FourInOrder(a, b, x, y);
    FourBreak(c, s, a, b, x, y);
  }

  lemma FourExact(c: Config, a: Loading, b: Loading, x: Loading, y: Loading)
    requires forall e :: e in {a, b, x, y} ==> Exact(c, e.name, e.deps)
    ensures AllExact(c, multiset([b, x, a, y]))
  {
    hide Exact;
  }

  lemma FourBreak(c: Config, s: seq<Loading>, a: Loading, b: Loading, x: Loading, y: Loading)
    requires Sorted(s) == [y, a, x, b] && Reaches(c, a.name, b.name)
    ensures !Topological(c, Names(Sorted(s)))
  {
    hide *;
    MakeBefore([y, a, x, b], 1, 3);
    BeforeBreaks(c, Sorted(s), a, b);
  }

  lemma FourInOrder(a: Loading, b: Loading, x: Loading, y: Loading)
    requires DoesNotDependOn(x, b) && DoesNotDependOn(y, a) && DoesNotDependOn(y, x) && DoesNotDependOn(a, x)
    ensures Sorted([b, x, a, y]) == [y, a, x, b]
  {
    hide *;
    assert [b, x, a, y] == [b, x] + [a, y] && [y, a, x, b] == [y, a] + [x, b];
    SortPairs(a, b, x, y, [x, b], [y, a], [b, x], [a, y]);
  }

  lemma SortPairs(a: Loading, b: Loading, x: Loading, y: Loading,
                  xb: seq<Loading>, ya: seq<Loading>, bx: seq<Loading>, ay: seq<Loading>)
    requires DoesNotDependOn(x, b) && DoesNotDependOn(y, a) && DoesNotDependOn(y, x) && DoesNotDependOn(a, x)
    requires xb == [x, b] && ya == [y, a] && bx == [b, x] && ay == [a, y]
    ensures Sorted(bx + ay) == ya + xb
  {
    hide *;
    SortTwo(b, x);
    SortTwo(a, y);
    SortHalves(bx + ay, bx, ay);
    MergePairs(xb, y, a, ya);
  }

  lemma MergePairs(p: seq<Loading>, y: Loading, a: Loading, q: seq<Loading>)
    requires p != [] && DoesNotDependOn(y, p[0]) && DoesNotDependOn(a, p[0]) && q == [y, a]
    ensures Merge(p, q) == [y, a] + p
  {
    hide *;
    MergeStep(p, y, [a], q);
    MergeStep(p, a, [], [a]);
  }

  lemma SortTwo(a: Loading, b: Loading)
    requires DoesNotDependOn(b, a)
    ensures Sorted([a, b]) == [b, a]
  {
    hide DoesNotDependOn;
    assert [a, b][..1] == [a] && [a, b][1..] == [b];
    MergeStep([a], b, [], [b]);
  }

  // ---------------------------------------------------------------- the channel

  /** The configuration wants the segment loaded. */
  predicate Wanted(c: Config, n: Name) { n in c && c[n].hasDll && c[n].autoLoad != Some(false) }

  /** The names are the wanted settings in their order: the places say where each of them stands. */
  ghost predicate Selected(c: Config, settings: seq<Name>, names: seq<Name>, places: seq<nat>) {
    && |places| == |names|
    && (forall i :: 0 <= i < |places| ==> places[i] < |settings| && names[i] == settings[places[i]])
    && (forall i, j :: 0 <= i < j < |places| ==> places[i] < places[j])
    && (forall k :: 0 <= k < |settings| ==> (Wanted(c, settings[k]) <==> k in places))
  }

  lemma NoneSelected(c: Config)
    ensures Selected(c, [], [], [])
  {
  }

  lemma OneSelected(c: Config, settings: seq<Name>, names: seq<Name>, places: seq<nat>, s: Name)
    requires Selected(c, settings, names, places)
    ensures if Wanted(c, s) then Selected(c, settings + [s], names + [s], places + [|settings|])
            else Selected(c, settings + [s], names, places)
  {
    hide Wanted;
    var n, more := |settings|, settings + [s];
    assert forall k :: 0 <= k < n ==> more[k] == settings[k];
    assert forall i :: 0 <= i < |places| ==> places[i] != n;
    if Wanted(c, s) { assert (places + [n])[|places|] == n; }
  }

  class Channel {
    const config: Config
    /** The settings of the channel in the order of the configuration file. */
    const settings: seq<Name>
    /** The segments added so far, in order. */
    var added: seq<Name>

    constructor (config: Config, settings: seq<Name>)
      ensures this.config == config && this.settings == settings && added == []
    {
      this.config, this.settings, added := config, settings, [];
    }

    /** The segments to load, in the order of the configuration. */
    function LoadableNames(n: nat): seq<Name>
      requires n <= |settings|
    {
      if n == 0 then []
      else LoadableNames(n - 1) + if settings[n - 1] in config && config[settings[n - 1]].Loadable() then [settings[n - 1]] else []
    }

    /** The loadable segments with their dependencies; false when a target is not configured. */
    method Loadables() returns (loadable: seq<Loading>, ok: bool)
      ensures ok ==> Names(loadable) == LoadableNames(|settings|) && Listed(config, loadable)
      ensures !ok ==> exists n, x :: n in LoadableNames(|settings|) && Reaches(config, n, x) && x !in config
    {
      hide *;
      loadable := [];
      NoneListed();
      for i := 0 to |settings|
        invariant Names(loadable) == LoadableNames(i) && Listed(config, loadable)
      {
        var s := settings[i];
        NamesNext(i);
        if s in config && config[s].Loadable() {
          var deps, found := Dependencies(config, s);
          if !found {
            InNames(i);
            return loadable, false;
          }
          OneListed(config, loadable, s, deps);
          loadable := loadable + [Loading(s, deps)];
        }
      }
      return loadable, true;
    }

    /** Load every loadable segment, providers first; false when a target is not configured, which throws. */
    method AutoLoad() returns (ok: bool)
      modifies this
      ensures !ok ==> added == old(added)
      ensures ok <==> forall n, x :: n in LoadableNames(|settings|) && Reaches(config, n, x) ==> x in config
      ensures ok ==> exists s: seq<Loading> ::
        && Names(s) == LoadableNames(|settings|) && AllExact(config, multiset(s))
        && added == old(added) + Names(Sorted(s)) && multiset(Names(Sorted(s))) == multiset(Names(s))
        && ((forall x :: x in s ==> !Reaches(config, x.name, x.name)) ==> Topological(config, Names(Sorted(s))))
    {
      hide *;
      var loadable, found := Loadables();
      if !found { return false; }
      ListedIs(config, loadable);
      if forall x :: x in loadable ==> !Reaches(config, x.name, x.name) { SortIsTopological(config, loadable); }
      SortKeepsNames(loadable);
      var order := Names(Sorted(loadable));
      for i := 0 to |order|
        invariant added == old(added) + order[..i]
      {
        assert order[..i + 1] == order[..i] + [order[i]];
        added := added + [order[i]];
      }
      assert order[..|order|] == order;
      return true;
    }

    lemma NoneListed()
      ensures Names([]) == LoadableNames(0) && Listed(config, [])
    {
    }

    lemma NamesNext(i: nat)
      requires i < |settings|
      ensures LoadableNames(i + 1)
           == LoadableNames(i) + if settings[i] in config && config[settings[i]].Loadable() then [settings[i]] else []
      ensures LoadableNames(i) + [] == LoadableNames(i)
    {
      hide Segment.Loadable;
    }

    /** The loadable names are the settings that have a module and do not switch loading off, in their order. */
    lemma {:induction false} LoadableNamesAre(n: nat) returns (places: seq<nat>)
      requires n <= |settings|
      ensures Selected(config, settings[..n], LoadableNames(n), places)
    {
      hide Selected;
      if n == 0 {
        places := [];
        NoneSelected(config);
      } else {
        var s := settings[n - 1];
        places := LoadableNamesAre(n - 1);
        assert settings[..n] == settings[..n - 1] + [s];
        OneSelected(config, settings[..n - 1], LoadableNames(n - 1), places, s);
        if s in config && config[s].Loadable() { places := places + [n - 1]; }
        assert LoadableNames(n - 1) + [] == LoadableNames(n - 1);
      }
    }

    lemma InNames(i: nat)
      requires i < |settings| && settings[i] in config && config[settings[i]].Loadable()
      ensures settings[i] in LoadableNames(|settings|)
    {
      NamesGrow(i + 1, |settings|);
    }

    lemma {:induction false} NamesGrow(m: nat, n: nat)
      requires m <= n <= |settings|
      ensures forall x :: x in LoadableNames(m) ==> x in LoadableNames(n)
      decreases n
    {
      if m < n { NamesGrow(m, n - 1); }
    }
  }

  /** Every entry's dependencies are exact and configured. */
  ghost predicate Listed(c: Config, s: seq<Loading>) {
    forall x :: x in s ==> Exact(c, x.name, x.deps) && x.deps <= c.Keys
  }

  lemma OneListed(c: Config, s: seq<Loading>, seg: Name, deps: set<Name>)
    requires Listed(c, s) && Exact(c, seg, deps) && forall x :: Reaches(c, seg, x) ==> x in c
    ensures Listed(c, s + [Loading(seg, deps)]) && Names(s + [Loading(seg, deps)]) == Names(s) + [seg]
  {
    hide Reaches;
  }

  lemma ListedIs(c: Config, s: seq<Loading>)
    requires Listed(c, s)
    ensures AllExact(c, multiset(s)) && forall n, x :: n in Names(s) && Reaches(c, n, x) ==> x in c
  {
    hide Reaches;
    forall n, x | n in Names(s) && Reaches(c, n, x) ensures x in c {
      var i :| 0 <= i < |s| && s[i].name == n;
      assert s[i] in s && Exact(c, n, s[i].deps);
    }
  }

  lemma SortKeepsNames(s: seq<Loading>)
    ensures multiset(Names(Sorted(s))) == multiset(Names(s))
  {
    SameNames(Sorted(s), s);
  }

  lemma {:induction false} SameNames(a: seq<Loading>, b: seq<Loading>)
    requires multiset(a) == multiset(b)
    ensures multiset(Names(a)) == multiset(Names(b))
    decreases |a|
  {
    hide Names;
    if a == [] {
      assert |b| == |multiset(b)| == |multiset(a)| == 0;
      assert Names(a) == [] && Names(b) == [];
    } else {
      var x := a[0];
      assert x in multiset(b);
      var k :| 0 <= k < |b| && b[k] == x;
      var a', b' := a[1..], b[..k] + b[k + 1..];
      HeadOff(a, 0, a');
      HeadOff(b, k, b');
      Cancel(x, multiset(a'), multiset(b'));
      SameNames(a', b');
    }
  }

  lemma Cancel(x: Loading, m: multiset<Loading>, n: multiset<Loading>)
    requires multiset{x} + m == multiset{x} + n
    ensures m == n
  {
    assert m == (multiset{x} + m) - multiset{x} && n == (multiset{x} + n) - multiset{x};
  }

  /** Removing one entry removes one from the entries and one from the names. */
  lemma HeadOff(b: seq<Loading>, k: nat, rest: seq<Loading>)
    requires k < |b| && rest == b[..k] + b[k + 1..]
    ensures multiset(b) == multiset{b[k]} + multiset(rest)
    ensures multiset(Names(b)) == multiset{b[k].name} + multiset(Names(rest))
  {
    var p, q := b[..k], b[k + 1..];
    assert b == p + ([b[k]] + q);
    NamesConcat(p, [b[k]] + q);
    NamesConcat([b[k]], q);
    NamesConcat(p, q);
    assert Names([b[k]]) == [b[k].name];
    hide Names;
    Middle(p, b[k], q);
    Middle(Names(p), b[k].name, Names(q));
  }

  lemma NamesConcat(p: seq<Loading>, q: seq<Loading>)
    ensures Names(p + q) == Names(p) + Names(q)
  {
  }

  lemma Middle<T>(p: seq<T>, x: T, q: seq<T>)
    ensures multiset(p + ([x] + q)) == multiset{x} + multiset(p + q)
  {
  }
}
