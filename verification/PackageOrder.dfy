/** Ordering packages by their run-time dependencies, and reporting circular ones. */
module PackageOrder {

  type Graph = map<string, set<string>>

  // ---- Names ----

  /** Alphabetical order: by the first differing character, a proper prefix first. */
  predicate Before(a: string, b: string) {
    if b == [] then false
    else if a == [] then true
    else if a[0] == b[0] then Before(a[1..], b[1..])
    else a[0] < b[0]
  }

  /** At k the two names differ for the first time, and a has the smaller character. */
  predicate SmallerAt(a: string, b: string, k: nat) { k < |a| && k < |b| && a[..k] == b[..k] && a[k] < b[k] }

  lemma {:induction false} BeforeIsAlphabetical(a: string, b: string)
    ensures Before(a, b) <==> a < b || exists k :: SmallerAt(a, b, k)
  {
    if a == [] || b == [] {
    } else if a[0] == b[0] {
      var s, t := a[1..], b[1..];
      BeforeIsAlphabetical(s, t);
      assert a == [a[0]] + s && b == [a[0]] + t;
      if k: nat :| SmallerAt(s, t, k) {
        assert a[..k + 1] == [a[0]] + s[..k] && b[..k + 1] == [a[0]] + t[..k];
        assert SmallerAt(a, b, k + 1);
      }
      if k: nat :| SmallerAt(a, b, k) {
        assert k > 0 && s[..k - 1] == a[..k][1..] && t[..k - 1] == b[..k][1..];
        assert SmallerAt(s, t, k - 1);
      }
    } else {
      if a[0] < b[0] { assert SmallerAt(a, b, 0); }
      if k: nat :| SmallerAt(a, b, k) {
        if k > 0 { assert a[..k][0] == b[..k][0]; }
      }
    }
  }

  lemma {:induction false} BeforeIsTotal(a: string, b: string)
    ensures Before(a, b) || a == b || Before(b, a)
    ensures !(Before(a, b) && Before(b, a)) && !Before(a, a)
  {
    if a != [] && b != [] {
      BeforeIsTotal(a[1..], b[1..]);
      assert a == [a[0]] + a[1..] && b == [b[0]] + b[1..];
    }
    if a != [] { BeforeIrreflexive(a); }
  }

  lemma {:induction false} BeforeIrreflexive(a: string)
    ensures !Before(a, a)
  {
    if a == [] {
    } else {
      BeforeIrreflexive(a[1..]);
    }
  }

  lemma {:induction false} BeforeIsTransitive(a: string, b: string, c: string)
    requires Before(a, b) && Before(b, c)
    ensures Before(a, c)
  {
    if a != [] && a[0] == b[0] == c[0] { BeforeIsTransitive(a[1..], b[1..], c[1..]); }
  }

  predicate Distinct(s: seq<string>) { forall i, j :: 0 <= i < j < |s| ==> s[i] != s[j] }

  function Elements(s: seq<string>): set<string> { set x | x in s }

  /** The first of the names once they are sorted. */
  function First(names: seq<string>): (name: string)
    requires names != []
    ensures name in names && forall x :: x in names ==> x == name || Before(name, x)
  {
    if |names| == 1 then names[0] else
      var rest := First(names[1..]);
      BeforeIsTotal(names[0], rest);
      assert forall x :: x in names ==> x == names[0] || x in names[1..];
      if Before(names[0], rest) then
        FirstIsLeast(names[0], rest, names[1..]);
        names[0]
      else
        rest
  }

  lemma FirstIsLeast(a: string, b: string, names: seq<string>)
    requires Before(a, b) && forall x :: x in names ==> x == b || Before(b, x)
    ensures forall x :: x in names ==> Before(a, x)
  {
    forall x | x in names
      ensures Before(a, x)
    {
      if x != b { BeforeIsTransitive(a, b, x); }
    }
  }

  // ---- What an order has to satisfy ----

  /** Dependencies only on known packages, which get_packages makes sure of. */
  predicate Closed(g: Graph) { forall p :: p in g ==> g[p] <= g.Keys }

  /** Every package of the prefix comes after all it depends on. */
  ghost predicate DepsFirst(g: Graph, order: seq<string>) {
    forall i :: 0 <= i < |order| ==> order[i] in g && g[order[i]] <= Elements(order[..i])
  }

  ghost predicate TopologicalOrder(g: Graph, order: seq<string>) {
    Distinct(order) && Elements(order) == g.Keys && DepsFirst(g, order)
  }

  /** The two orders agree on the names before i, and there the first one has the earlier name. */
  ghost predicate WinsAt(order: seq<string>, other: seq<string>, i: nat) {
    i < |order| && i < |other| && order[..i] == other[..i] && Before(order[i], other[i])
  }

  ghost predicate NoLater(order: seq<string>, other: seq<string>) {
    order == other || exists i: nat :: WinsAt(order, other, i)
  }

  /** A dependency cycle: each package depends on the next one, the last on the first. */
  ghost predicate Cycle(g: Graph, c: seq<string>) {
    && c != []
    && (forall i :: 0 <= i < |c| ==> c[i] in g)
    && (forall i :: 0 <= i < |c| - 1 ==> c[i + 1] in g[c[i]])
    && c[0] in g[c[|c| - 1]]
  }

  ghost predicate HasCycle(g: Graph) { exists c :: Cycle(g, c) }

  // ---- Cycles and orders exclude each other ----

  /** A prefix in which dependencies come first never contains a package of a cycle. */
  lemma {:induction false} CycleNeverOrdered(g: Graph, c: seq<string>, order: seq<string>, n: nat)
    requires Cycle(g, c) && DepsFirst(g, order) && n <= |order|
    ensures forall i :: 0 <= i < |c| ==> c[i] !in order[..n]
  {
    if n == 0 {
    } else {
      CycleNeverOrdered(g, c, order, n - 1);
      assert order[..n] == order[..n - 1] + [order[n - 1]];
      forall i | 0 <= i < |c|
        ensures c[i] !in order[..n]
      {
        var next := if i < |c| - 1 then c[i + 1] else c[0];
        assert next in g[c[i]];
        if c[i] == order[n - 1] {
          assert next in Elements(order[..n - 1]);
        }
      }
    }
  }

  lemma {:induction false} DistinctCount(s: seq<string>)
    requires Distinct(s)
    ensures |Elements(s)| == |s|
  {
    if s == [] {
    } else {
      var front := s[..|s| - 1];
      DistinctCount(front);
      assert Elements(s) == Elements(front) + {s[|s| - 1]};
    }
  }

  lemma SubsetCount(a: set<string>, b: set<string>)
    requires a <= b
    ensures |a| <= |b|
  {
    assert b == a + (b - a);
  }

  ghost predicate HasDependencyIn(g: Graph, stuck: set<string>, p: string) {
    p in g && exists d :: d in stuck && d in g[p]
  }

  ghost predicate AllStuck(g: Graph, stuck: set<string>) {
    forall p {:trigger HasDependencyIn(g, stuck, p)} :: p in stuck ==> HasDependencyIn(g, stuck, p)
  }

  /** Each package depends on the next one. */
  ghost predicate Walk(g: Graph, path: seq<string>) {
    forall i :: 0 <= i < |path| - 1 ==> path[i] in g && path[i + 1] in g[path[i]]
  }

  /** A walk along dependencies inside a finite set in which nobody is free of them must come back to itself. */
  lemma {:induction false} WalkFindsCycle(g: Graph, stuck: set<string>, path: seq<string>)
    requires AllStuck(g, stuck)
    requires path != [] && Distinct(path) && Elements(path) <= stuck
    requires Walk(g, path)
    ensures HasCycle(g)
    decreases |stuck| - |path|
  {
    DistinctCount(path);
    SubsetCount(Elements(path), stuck);
    var last := path[|path| - 1];
    assert last in Elements(path);
    assert HasDependencyIn(g, stuck, last);
    var next :| next in stuck && next in g[last];
    if next in path {
      var j :| 0 <= j < |path| && path[j] == next;
      CloseCycle(g, path, j);
    } else {
      var longer := path + [next];
      assert Elements(longer) == Elements(path) + {next};
      ExtendWalk(g, path, next);
      DistinctCount(longer);
      SubsetCount(Elements(longer), stuck);
      WalkFindsCycle(g, stuck, longer);
    }
  }

  lemma ExtendWalk(g: Graph, path: seq<string>, next: string)
    requires path != [] && Distinct(path) && Walk(g, path) && next !in path
    requires path[|path| - 1] in g && next in g[path[|path| - 1]]
    ensures Distinct(path + [next]) && Walk(g, path + [next])
  {}

  lemma CloseCycle(g: Graph, path: seq<string>, j: nat)
    requires Elements(path) <= g.Keys && j < |path|
    requires Walk(g, path)
    requires path[|path| - 1] in g && path[j] in g[path[|path| - 1]]
    ensures HasCycle(g)
  {
    var c := path[j..];
    forall i | 0 <= i < |c|
      ensures c[i] in g && (i < |c| - 1 ==> c[i + 1] in g[c[i]])
    {
      assert c[i] == path[j + i] && path[j + i] in Elements(path);
      if i < |c| - 1 { assert c[i + 1] == path[j + i + 1]; }
    }
    assert Cycle(g, c);
  }

  lemma StuckHasCycle(g: Graph, stuck: set<string>)
    requires stuck != {} && AllStuck(g, stuck)
    ensures HasCycle(g)
  {
    var p :| p in stuck;
    assert Elements([p]) == {p};
    WalkFindsCycle(g, stuck, [p]);
  }

  // ---- The greatest self-depending set ----

  function Depended(g: Graph): set<string> { set p, d | p in g && d in g[p] :: d }

  ghost predicate DependedOn(g: Graph, s: set<string>, p: string) {
    exists q :: q in s && q in g && p in g[q]
  }

  /** Each member is a dependency of a member. */
  ghost predicate SelfDepending(g: Graph, s: set<string>) {
    s <= g.Keys && forall p {:trigger DependedOn(g, s, p)} :: p in s ==> DependedOn(g, s, p)
  }

  lemma CycleIsSelfDepending(g: Graph, c: seq<string>)
    requires Cycle(g, c)
    ensures SelfDepending(g, Elements(c))
  {
    forall p | p in Elements(c)
      ensures DependedOn(g, Elements(c), p)
    {
      var i :| 0 <= i < |c| && c[i] == p;
      var before := if i == 0 then c[|c| - 1] else c[i - 1];
      assert before in Elements(c) && p in g[before];
    }
  }

  /** A self-depending set survives deleting what nobody depends on. */
  lemma SelfDependingIsDepended(g: Graph, s: set<string>)
    requires SelfDepending(g, s)
    ensures s <= Depended(g)
  {
    forall p | p in s
      ensures p in Depended(g)
    {
      assert DependedOn(g, s, p);
    }
  }

  // ---- The ordering loop ----

  ghost predicate NoEarlier(prefix: seq<string>, o: seq<string>) {
    prefix <= o || exists i: nat :: WinsAt(prefix, o, i)
  }

  /** No topological order has an alphabetically earlier beginning than this prefix. */
  ghost predicate LeastSoFar(g: Graph, ordered: seq<string>) {
    forall o :: TopologicalOrder(g, o) ==> NoEarlier(ordered, o)
  }

  /** now is the graph g without the dependencies on what is ordered. */
  ghost predicate Progressed(g: Graph, now: Graph, waiting: seq<string>, ordered: seq<string>) {
    && Closed(g)
    && Distinct(waiting) && Distinct(ordered) && Elements(waiting) !! Elements(ordered)
    && Elements(waiting) + Elements(ordered) == g.Keys
    && now.Keys == g.Keys && (forall p :: p in g ==> now[p] == g[p] - Elements(ordered))
    && DepsFirst(g, ordered) && LeastSoFar(g, ordered)
  }

  ghost predicate HasDependency(g: Graph, p: string) { p in g && exists d :: d in g[p] }

  lemma OneMore(g: Graph, before: Graph, now: Graph, waiting: seq<string>, left: seq<string>, ordered: seq<string>,
                name: string)
    requires Progressed(g, before, waiting, ordered)
    requires name in waiting && before[name] == {}
    requires forall x :: x in waiting && before[x] == {} ==> x == name || Before(name, x)
    requires Distinct(left) && Elements(left) == Elements(waiting) - {name}
    requires now.Keys == before.Keys && forall p :: p in now ==> now[p] == before[p] - {name}
    ensures Progressed(g, now, left, ordered + [name])
  {
    assert name in Elements(waiting);
    LongerElements(ordered, name);
    LongerDepsFirst(g, ordered, name);
    LongerIsLeast(g, before, waiting, ordered, name);
  }

  lemma LongerElements(ordered: seq<string>, name: string)
    requires Distinct(ordered) && name !in Elements(ordered)
    ensures Distinct(ordered + [name]) && Elements(ordered + [name]) == Elements(ordered) + {name}
  {
    assert forall i :: 0 <= i < |ordered| ==> ordered[i] in Elements(ordered);
  }

  lemma LongerDepsFirst(g: Graph, ordered: seq<string>, name: string)
    requires DepsFirst(g, ordered) && name in g && g[name] <= Elements(ordered)
    ensures DepsFirst(g, ordered + [name])
  {
    var longer := ordered + [name];
    forall i | 0 <= i < |longer|
      ensures longer[i] in g && g[longer[i]] <= Elements(longer[..i])
    {
      assert longer[..i] == ordered[..i];
      assert ordered[..|ordered|] == ordered;
    }
  }

  lemma LongerIsLeast(g: Graph, before: Graph, waiting: seq<string>, ordered: seq<string>, name: string)
    requires Progressed(g, before, waiting, ordered) && name in waiting
    requires forall x :: x in waiting && before[x] == {} ==> x == name || Before(name, x)
    ensures LeastSoFar(g, ordered + [name])
  {
    forall o | TopologicalOrder(g, o)
      ensures NoEarlier(ordered + [name], o)
    {
      assert NoEarlier(ordered, o);
      if ordered <= o {
        NextChoice(g, before, waiting, ordered, name, o);
      } else {
        LongerStillWins(ordered, name, o);
      }
    }
  }

  lemma LongerStillWins(ordered: seq<string>, name: string, o: seq<string>)
    requires NoEarlier(ordered, o) && !(ordered <= o)
    ensures NoEarlier(ordered + [name], o)
  {
    var i: nat :| WinsAt(ordered, o, i);
    assert (ordered + [name])[..i] == ordered[..i];
    assert WinsAt(ordered + [name], o, i);
  }

  lemma NextIsFree(g: Graph, before: Graph, waiting: seq<string>, ordered: seq<string>, o: seq<string>)
    requires Progressed(g, before, waiting, ordered) && TopologicalOrder(g, o) && ordered < o
    ensures o[|ordered|] in waiting && before[o[|ordered|]] == {}
  {
    var n := |ordered|;
    var next := o[n];
    assert next in Elements(o) && o[..n] == ordered;
    assert forall i :: 0 <= i < n ==> ordered[i] == o[i] != next;
    assert next !in Elements(ordered);
  }

  /** Whatever a topological order puts next is free of dependencies now, so it is the chosen name or a later one. */
  lemma NextChoice(g: Graph, before: Graph, waiting: seq<string>, ordered: seq<string>, name: string, o: seq<string>)
    requires Progressed(g, before, waiting, ordered) && TopologicalOrder(g, o) && ordered <= o
    requires name in waiting
    requires forall x :: x in waiting && before[x] == {} ==> x == name || Before(name, x)
    ensures NoEarlier(ordered + [name], o)
  {
    assert name in Elements(waiting);
    assert name in Elements(o) && name !in Elements(ordered);
    assert o != ordered;
    NextIsFree(g, before, waiting, ordered, o);
    ChosenIsNoLater(ordered, name, o);
  }

  lemma ChosenIsNoLater(ordered: seq<string>, name: string, o: seq<string>)
    requires ordered < o && (o[|ordered|] == name || Before(name, o[|ordered|]))
    ensures NoEarlier(ordered + [name], o)
  {
    var longer, n := ordered + [name], |ordered|;
    if o[n] == name {
      assert longer == o[..n + 1];
    } else {
      assert longer[..n] == o[..n];
      assert WinsAt(longer, o, n);
    }
  }

  lemma Finished(g: Graph, now: Graph, ordered: seq<string>)
    requires Progressed(g, now, [], ordered)
    ensures IsResult(g, Ordered(ordered))
  {
    assert Elements([]) == {};
    forall o | TopologicalOrder(g, o)
      ensures NoLater(ordered, o)
    {
      if ordered <= o {
        DistinctCount(ordered); DistinctCount(o);
      }
    }
    forall c
      ensures !Cycle(g, c)
    {
      OrderExcludesCycle(g, ordered, c);
    }
  }

  lemma OrderExcludesCycle(g: Graph, order: seq<string>, c: seq<string>)
    requires TopologicalOrder(g, order)
    ensures !Cycle(g, c)
  {
    assert order[..|order|] == order;
    if Cycle(g, c) {
      assert c[0] in Elements(order);
      CycleNeverOrdered(g, c, order, |order|);
    }
  }

  /** When nobody is free of dependencies, there is a cycle; and the greatest self-depending set has every cycle. */
  lemma Blocked(g: Graph, now: Graph, waiting: seq<string>, ordered: seq<string>, left: set<string>)
    requires Progressed(g, now, waiting, ordered) && waiting != []
    requires forall x {:trigger HasDependency(now, x)} :: x in waiting ==> HasDependency(now, x)
    requires SelfDepending(now, left) && forall s :: SelfDepending(now, s) ==> s <= left
    ensures IsResult(g, Circular(left))
  {
    BlockedHasCycle(g, now, waiting, ordered);
    forall c | Cycle(g, c)
      ensures Elements(c) <= left
    {
      CycleNeverOrdered(g, c, ordered, |ordered|);
      assert ordered[..|ordered|] == ordered;
      CycleStays(g, now, Elements(ordered), c);
    }
    MoreDependencies(g, now, left);
    var c :| Cycle(g, c);
    assert c[0] in Elements(c);
  }

  lemma BlockedHasCycle(g: Graph, now: Graph, waiting: seq<string>, ordered: seq<string>)
    requires Progressed(g, now, waiting, ordered) && waiting != []
    requires forall x {:trigger HasDependency(now, x)} :: x in waiting ==> HasDependency(now, x)
    ensures HasCycle(g)
  {
    var stuck := Elements(waiting);
    assert waiting[0] in stuck;
    forall p | p in stuck
      ensures HasDependencyIn(g, stuck, p)
    {
      assert HasDependency(now, p);
      var d :| d in now[p];
      assert d in g[p] && d in stuck;
    }
    StuckHasCycle(g, stuck);
  }

  lemma MoreDependencies(g: Graph, now: Graph, s: set<string>)
    requires now.Keys == g.Keys && (forall p :: p in g ==> now[p] <= g[p]) && SelfDepending(now, s)
    ensures SelfDepending(g, s)
  {
    forall p | p in s
      ensures DependedOn(g, s, p)
    {
      assert DependedOn(now, s, p);
      var q :| q in s && q in now && p in now[q];
      assert p in g[q];
    }
  }

  lemma CycleStays(g: Graph, now: Graph, done: set<string>, c: seq<string>)
    requires Cycle(g, c) && now.Keys == g.Keys && forall p :: p in g ==> now[p] == g[p] - done
    requires forall i :: 0 <= i < |c| ==> c[i] !in done
    ensures SelfDepending(now, Elements(c))
  {
    assert Cycle(now, c);
    CycleIsSelfDepending(now, c);
  }

  // ---- The script's functions ----

  datatype OrderResult = Ordered(names: seq<string>) | Circular(packages: set<string>)

  /** What ordering the packages of g gives. Exactly without a cycle an order, which is topological and no later in
      the alphabet than any other. Otherwise packages that depend on each other, among them all members of cycles. */
  ghost predicate IsResult(g: Graph, r: OrderResult) {
    && (r.Ordered? <==> !HasCycle(g))
    && match r
       case Ordered(names) => TopologicalOrder(g, names) && forall o :: TopologicalOrder(g, o) ==> NoLater(names, o)
       case Circular(packages) =>
         packages != {} && SelfDepending(g, packages) && forall c :: Cycle(g, c) ==> Elements(c) <= packages
  }

  function WithoutDeps(names: seq<string>, g: Graph): (r: seq<string>)
    requires forall x :: x in names ==> x in g
    ensures forall x :: x in r <==> x in names && g[x] == {}
  {
    if names == [] then [] else
      (if g[names[0]] == {} then [names[0]] else []) + WithoutDeps(names[1..], g)
  }

  lemma NobodyFree(names: seq<string>, g: Graph)
    requires (forall x :: x in names ==> x in g) && WithoutDeps(names, g) == []
    ensures forall x {:trigger HasDependency(g, x)} :: x in names ==> HasDependency(g, x)
  {
    forall x | x in names
      ensures HasDependency(g, x)
    {
      assert x in WithoutDeps(names, g) <==> g[x] == {};
      var d :| d in g[x];
    }
  }

  /** `list.remove`: without the first occurrence. */
  function Remove(names: seq<string>, x: string): (r: seq<string>)
    requires x in names && Distinct(names)
    ensures Distinct(r) && |r| == |names| - 1 && Elements(r) == Elements(names) - {x}
  {
    if names[0] == x then
      assert names == [names[0]] + names[1..];
      names[1..]
    else
      assert names == [names[0]] + names[1..];
      var rest := Remove(names[1..], x);
      assert names[0] !in Elements(names[1..]);
      assert forall i :: 0 <= i < |rest| ==> rest[i] in Elements(rest);
      assert Elements([names[0]] + rest) == {names[0]} + Elements(rest);
      [names[0]] + rest
  }

  /** The keys of a dictionary, in some order. */
  method KeyList(g: Graph) returns (keys: seq<string>)
    ensures Distinct(keys) && Elements(keys) == g.Keys
  {
    keys := [];
    var rest := g.Keys;
    while rest != {}
      invariant Distinct(keys) && rest !! Elements(keys) && rest + Elements(keys) == g.Keys
      decreases rest
    {
      var k :| k in rest;
      assert Elements(keys + [k]) == Elements(keys) + {k};
      keys, rest := keys + [k], rest - {k};
    }
  }

  class Packages {
    var packages: Graph

    constructor (packages: Graph)
      ensures this.packages == packages
    {
      this.packages := packages;
    }

    /** The loop that takes an ordered package out of every dependency list. */
    method RemoveDependency(name: string)
      modifies this
      ensures packages.Keys == old(packages).Keys
      ensures forall k :: k in packages ==> packages[k] == old(packages)[k] - {name}
    {
      var keys := KeyList(packages);
      var i := 0;
      assert forall k :: k in packages ==> k in Elements(keys);
      while i < |keys|
        invariant i <= |keys| && packages.Keys == old(packages).Keys
        invariant forall j :: 0 <= j < i ==> packages[keys[j]] == old(packages)[keys[j]] - {name}
        invariant forall j :: i <= j < |keys| ==> packages[keys[j]] == old(packages)[keys[j]]
      {
        var k := keys[i];
        assert k in Elements(keys);
        if name in packages[k] {
          packages := packages[k := packages[k] - {name}];
        }
        i := i + 1;
      }
    }

    /** `order_packages`. On an acyclic graph: the alphabetically least of all topological orders. On any other: the
        packages to report, among them every member of every cycle. */
    method OrderPackages() returns (r: OrderResult)
      requires Closed(packages)
      modifies this
      ensures IsResult(old(packages), r)
    {
      ghost var g := packages;
      var toBeOrdered := KeyList(packages);
      var ordered: seq<string> := [];
      assert Elements(ordered) == {};
      while toBeOrdered != []
        invariant Progressed(g, packages, toBeOrdered, ordered)
        decreases |toBeOrdered|
      {
        assert forall x :: x in toBeOrdered ==> x in Elements(toBeOrdered);
        var pkgNamesWithoutDeps := WithoutDeps(toBeOrdered, packages);
        if pkgNamesWithoutDeps == [] {
          NobodyFree(toBeOrdered, packages);
          ghost var stuck := packages;
          ReduceCycleSet();
          Blocked(g, stuck, toBeOrdered, ordered, packages.Keys);
          return Circular(packages.Keys);
        }
        var pkgName := First(pkgNamesWithoutDeps);
        ghost var before, waiting := packages, toBeOrdered;
        toBeOrdered := Remove(toBeOrdered, pkgName);
        RemoveDependency(pkgName);
        OneMore(g, before, packages, waiting, toBeOrdered, ordered, pkgName);
        ordered := ordered + [pkgName];
      }
      Finished(g, packages, ordered);
      return Ordered(ordered);
    }

    /** `reduce_cycle_set`: leaves the greatest set of packages in which each is depended on by a member. */
    method ReduceCycleSet()
      modifies this
      ensures packages.Keys <= old(packages).Keys && forall p :: p in packages ==> packages[p] == old(packages)[p]
      ensures SelfDepending(old(packages), packages.Keys)
      ensures forall s :: SelfDepending(old(packages), s) ==> s <= packages.Keys
    {
      ghost var g := packages;
      var lastDepended: set<string> := {};
      while |packages| > 0
        invariant Reduced(g, packages)
        invariant lastDepended != {} ==> packages.Keys <= lastDepended
        decreases |packages|, if lastDepended == Depended(packages) then 0 else 1
      {
        var depended := ReductionPass(g);
        if lastDepended != {} && lastDepended == depended {
          FixedIsSelfDepending(g, packages);
          return;
        }
        lastDepended := depended;
      }
    }

    /** One turn of the loop: what nobody depends on is deleted. */
    method ReductionPass(ghost g: Graph) returns (depended: set<string>)
      requires Reduced(g, packages)
      modifies this
      ensures Reduced(g, packages) && depended == Depended(old(packages)) && packages.Keys <= depended
      ensures |packages| < |old(packages)| || packages == old(packages)
      ensures old(packages).Keys <= depended ==> packages == old(packages)
    {
      ghost var before := packages;
      depended := AllDependencies();
      DeleteUndepended(depended);
      ReductionKeepsAll(g, before, packages);
      SmallerMap(packages, before);
      assert before.Keys <= depended ==> before.Keys <= packages.Keys;
    }

    /** The union of all dependency sets. */
    method AllDependencies() returns (depended: set<string>)
      ensures depended == Depended(packages)
    {
      var keys := KeyList(packages);
      depended := {};
      var i := 0;
      while i < |keys|
        invariant i <= |keys|
        invariant depended == set j, d | 0 <= j < i && keys[j] in packages && d in packages[keys[j]] :: d
      {
        assert keys[i] in Elements(keys);
        depended := depended + packages[keys[i]];
        i := i + 1;
      }
      forall d
        ensures d in depended <==> d in Depended(packages)
      {
        if d in Depended(packages) {
          var p :| p in packages && d in packages[p];
          assert p in Elements(keys);
          var j :| 0 <= j < |keys| && keys[j] == p;
        }
      }
    }

    method DeleteUndepended(depended: set<string>)
      modifies this
      ensures packages.Keys == old(packages).Keys * depended
      ensures forall p :: p in packages ==> packages[p] == old(packages)[p]
    {
      var keys := KeyList(packages);
      var i := 0;
      while i < |keys|
        invariant i <= |keys| && packages.Keys <= old(packages).Keys
        invariant forall p :: p in packages ==> packages[p] == old(packages)[p]
        invariant forall j :: 0 <= j < i ==> (keys[j] in packages <==> keys[j] in depended)
        invariant forall j :: i <= j < |keys| ==> keys[j] in packages
      {
        assert keys[i] in Elements(keys);
        if keys[i] !in depended {
          packages := packages - {keys[i]};
        }
        i := i + 1;
      }
      forall p | p in old(packages)
        ensures p in packages <==> p in depended
      {
        assert p in Elements(keys);
        var j :| 0 <= j < |keys| && keys[j] == p;
      }
    }
  }

  /** now is part of g and has all its self-depending sets. */
  ghost predicate Reduced(g: Graph, now: Graph) {
    && now.Keys <= g.Keys && (forall p :: p in now ==> now[p] == g[p])
    && forall s :: SelfDepending(g, s) ==> s <= now.Keys
  }

  /** What nothing more can be deleted from is self-depending. */
  lemma FixedIsSelfDepending(g: Graph, now: Graph)
    requires Reduced(g, now) && now.Keys <= Depended(now)
    ensures SelfDepending(g, now.Keys)
  {
    forall p | p in now.Keys
      ensures DependedOn(g, now.Keys, p)
    {
      assert p in Depended(now);
    }
  }

  /** Deleting what nobody depends on loses no self-depending set. */
  lemma ReductionKeepsAll(g: Graph, before: Graph, after: Graph)
    requires Reduced(g, before)
    requires after.Keys == before.Keys * Depended(before) && forall p :: p in after ==> after[p] == before[p]
    ensures Reduced(g, after)
  {
    forall s | SelfDepending(g, s)
      ensures s <= after.Keys
    {
      forall p | p in s
        ensures DependedOn(before, s, p)
      {
        assert DependedOn(g, s, p);
      }
      assert SelfDepending(before, s);
      SelfDependingIsDepended(before, s);
    }
  }

  lemma SmallerMap(a: Graph, b: Graph)
    requires a.Keys <= b.Keys && forall p :: p in a ==> a[p] == b[p]
    ensures |a| < |b| || a == b
    ensures b.Keys <= a.Keys ==> a == b
  {
    assert b.Keys == a.Keys + (b.Keys - a.Keys);
    assert |a| == |a.Keys| && |b| == |b.Keys|;
  }
}
