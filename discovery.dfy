/**
 * The memoised depth-first walk that collects the dependency information of a package
 * and everything it depends on (`GetPackageDependenciesAsync` in
 * src/RoslynCodeCompiler/CodeCompiler.cs), specified by the function `Discover`.
 */
module Discovery {
  import opened Wrappers
  import opened Packages

  /** The contents of the `availablePackages` set, by package key. */
  type Entries = map<PackageKey, DependencyInfo>

  /** Every entry is filed under its own package's key. */
  ghost predicate Keyed(m: Entries)
  {
    forall k :: k in m ==> KeyOf(m[k].identity) == k
  }

  /** Every entry was answered by one of the repositories. */
  ghost predicate SourcedFrom(m: Entries, repositories: seq<Repository>)
  {
    forall k :: k in m ==> m[k].source in Sources(repositories)
  }

  function Sources(repositories: seq<Repository>): set<PackageSource>
  {
    set i | 0 <= i < |repositories| :: repositories[i].source
  }

  /** `r` keeps every entry of `m` unchanged. */
  ghost predicate Grows(m: Entries, r: Entries)
  {
    m.Keys <= r.Keys && forall k :: k in m ==> r[k] == m[k]
  }

  lemma {:induction false} SubsetCard<T>(a: set<T>, b: set<T>)
    requires a <= b
    ensures |a| <= |b|
    decreases |a|
  {
    if a != {} {
      var x :| x in a;
      SubsetCard(a - {x}, b - {x});
    }
  }

  /** Knowing more packages leaves no more packages to discover. */
  lemma FewerLeft(universe: set<PackageKey>, m: set<PackageKey>, r: set<PackageKey>)
    requires m <= r
    ensures |universe - r| <= |universe - m|
  {
    SubsetCard(universe - r, universe - m);
  }

  /** Adding the answer for a listed package that was not known leaves strictly fewer
      to discover. */
  lemma OneFewerLeft(repositories: seq<Repository>, i: nat, m: Entries, key: PackageKey, info: DependencyInfo)
    requires i < |repositories| && key in repositories[i].listings && key !in m
    ensures |Universe(repositories) - m[key := info].Keys| < |Universe(repositories) - m.Keys|
  {
    var universe := Universe(repositories);
    assert key in universe;
    assert universe - m[key := info].Keys == (universe - m.Keys) - {key};
  }

  /** The walk from `package`, starting from the set `m`: a package already present is
      skipped; otherwise the first repository that answers for it is used, its answer is
      added and each of its dependencies is walked in order; when no repository answers,
      nothing changes. */
  function Discover(package: PackageIdentity, repositories: seq<Repository>, m: Entries): (r: Entries)
    ensures m.Keys <= r.Keys
    decreases |Universe(repositories) - m.Keys|, 0
  {
    var key := KeyOf(package);
    if key in m then m
    else match FirstAnswering(repositories, key, 0)
      case None => m
      case Some(i) =>
        var info := ResolvePackage(repositories[i], package).value;
        OneFewerLeft(repositories, i, m, key, info);
        DiscoverAll(info.dependencies, repositories, m[key := info])
  }

  /** The walks from each dependency in turn, each one starting from what the previous
      ones left. */
  function DiscoverAll(dependencies: seq<Dependency>, repositories: seq<Repository>, m: Entries): (r: Entries)
    ensures m.Keys <= r.Keys
    decreases |Universe(repositories) - m.Keys|, |dependencies|
  {
    if dependencies == [] then m
    else
      var before := DiscoverAll(dependencies[..|dependencies| - 1], repositories, m);
      FewerLeft(Universe(repositories), m.Keys, before.Keys);
      Discover(DependencyIdentity(dependencies[|dependencies| - 1]), repositories, before)
  }

  /** Filing a repository's answer under the package's key keeps what `DiscoverKeeps`
      promises. */
  lemma AddAnswerKeeps(repositories: seq<Repository>, i: nat, package: PackageIdentity, m: Entries)
    requires WellFormedRegistry(repositories)
    requires i < |repositories| && KeyOf(package) in repositories[i].listings && KeyOf(package) !in m
    ensures var r := m[KeyOf(package) := ResolvePackage(repositories[i], package).value];
      Grows(m, r) && (Keyed(m) ==> Keyed(r))
      && (SourcedFrom(m, repositories) ==> SourcedFrom(r, repositories))
  {
    var info := ResolvePackage(repositories[i], package).value;
    assert KeyOf(info.identity) == KeyOf(package);
    assert info.source in Sources(repositories);
  }

  lemma KeepsChain(a: Entries, b: Entries, c: Entries, repositories: seq<Repository>)
    requires Grows(a, b) && (Keyed(a) ==> Keyed(b))
    requires SourcedFrom(a, repositories) ==> SourcedFrom(b, repositories)
    requires Grows(b, c) && (Keyed(b) ==> Keyed(c))
    requires SourcedFrom(b, repositories) ==> SourcedFrom(c, repositories)
    ensures Grows(a, c) && (Keyed(a) ==> Keyed(c))
    ensures SourcedFrom(a, repositories) ==> SourcedFrom(c, repositories)
  {
  }

  /** The walk only adds: every entry already present keeps its value, entries stay
      filed under their own keys, and every new entry was answered by a repository. */
  lemma {:induction false} DiscoverKeeps(package: PackageIdentity, repositories: seq<Repository>, m: Entries)
    requires WellFormedRegistry(repositories)
    ensures var r := Discover(package, repositories, m);
      Grows(m, r) && (Keyed(m) ==> Keyed(r))
      && (SourcedFrom(m, repositories) ==> SourcedFrom(r, repositories))
    decreases |Universe(repositories) - m.Keys|, 0
  {
    var key := KeyOf(package);
    if key !in m {
      match FirstAnswering(repositories, key, 0)
      case None =>
      case Some(i) =>
        var info := ResolvePackage(repositories[i], package).value;
        OneFewerLeft(repositories, i, m, key, info);
        var first := m[key := info];
        AddAnswerKeeps(repositories, i, package, m);
        DiscoverAllKeeps(info.dependencies, repositories, first);
        KeepsChain(m, first, DiscoverAll(info.dependencies, repositories, first), repositories);
    }
  }

  lemma {:induction false} DiscoverAllKeeps(dependencies: seq<Dependency>, repositories: seq<Repository>, m: Entries)
    requires WellFormedRegistry(repositories)
    ensures var r := DiscoverAll(dependencies, repositories, m);
      Grows(m, r) && (Keyed(m) ==> Keyed(r))
      && (SourcedFrom(m, repositories) ==> SourcedFrom(r, repositories))
    decreases |Universe(repositories) - m.Keys|, |dependencies|
  {
    if dependencies != [] {
      var init := dependencies[..|dependencies| - 1];
      DiscoverAllKeeps(init, repositories, m);
      var before := DiscoverAll(init, repositories, m);
      FewerLeft(Universe(repositories), m.Keys, before.Keys);
      var next := DependencyIdentity(dependencies[|dependencies| - 1]);
      DiscoverKeeps(next, repositories, before);
      KeepsChain(m, before, Discover(next, repositories, before), repositories);
    }
  }

  /** Walking one more dependency continues from where the previous ones left off. */
  lemma DiscoverAllStep(dependencies: seq<Dependency>, j: nat, repositories: seq<Repository>, m: Entries)
    requires j < |dependencies|
    ensures DiscoverAll(dependencies[..j + 1], repositories, m)
      == Discover(DependencyIdentity(dependencies[j]), repositories, DiscoverAll(dependencies[..j], repositories, m))
  {
    assert dependencies[..j + 1][..j] == dependencies[..j];
  }

  // ---------------------------------------------------------------------------
  // The mutable set and the walk
  // ---------------------------------------------------------------------------

  /** `availablePackages`: a set of dependency information compared by package identity. */
  class DiscoveredSet {
    var entries: Entries

    ghost predicate Valid()
      reads this
    {
      Keyed(entries)
    }

    constructor ()
      ensures Valid() && entries == map[]
    {
      entries := map[];
    }

    /** `Contains(package)` under `PackageIdentityComparer.Default`: some stored package
        is equal to `package` under the comparer. */
    function Contains(package: PackageIdentity): (b: bool)
      reads this
      requires Valid()
      ensures b <==> exists k :: k in entries && KeyOf(entries[k].identity) == KeyOf(package)
    {
      KeyOf(package) in entries
    }

    /** `Add(info)`: `false`, and no change, when an equal identity is already present. */
    method Add(info: DependencyInfo) returns (added: bool)
      requires Valid()
      modifies this
      ensures Valid()
      ensures added <==> KeyOf(info.identity) !in old(entries)
      ensures entries == if added then old(entries)[KeyOf(info.identity) := info] else old(entries)
    {
      var key := KeyOf(info.identity);
      added := key !in entries;
      if added {
        entries := entries[key := info];
      }
    }
  }

  /** `GetPackageDependenciesAsync`: adds to `available` what the walk from `package`
      discovers, and nothing else. */
  method GetPackageDependencies(package: PackageIdentity, repositories: seq<Repository>, available: DiscoveredSet)
    requires WellFormedRegistry(repositories) && available.Valid()
    modifies available
    ensures available.Valid()
    ensures available.entries == Discover(package, repositories, old(available.entries))
    decreases |Universe(repositories) - available.entries.Keys|, 0
  {
    if available.Contains(package) {
      return;
    }
    ghost var key := KeyOf(package);
    ghost var start := available.entries;
    var i := 0;
    while i < |repositories|
      invariant 0 <= i <= |repositories|
      invariant available.entries == start && available.Valid()
      invariant FirstAnswering(repositories, key, 0) == FirstAnswering(repositories, key, i)
      decreases |repositories| - i
    {
      var dependencyInfo := ResolvePackage(repositories[i], package);
      if dependencyInfo.Some? {
        var info := dependencyInfo.value;
        var _ := available.Add(info);
        OneFewerLeft(repositories, i, start, key, info);
        GetDependencies(info.dependencies, repositories, available);
        break;
      }
      i := i + 1;
    }
  }

  /** The inner loop of `GetPackageDependenciesAsync`: walks each dependency, at its
      minimum version, in order. */
  method GetDependencies(dependencies: seq<Dependency>, repositories: seq<Repository>, available: DiscoveredSet)
    requires WellFormedRegistry(repositories) && available.Valid()
    modifies available
    ensures available.Valid()
    ensures available.entries == DiscoverAll(dependencies, repositories, old(available.entries))
    decreases |Universe(repositories) - available.entries.Keys|, 1
  {
    ghost var start := available.entries;
    for j := 0 to |dependencies|
      invariant available.Valid()
      invariant available.entries == DiscoverAll(dependencies[..j], repositories, start)
    {
      DiscoverAllStep(dependencies, j, repositories, start);
      FewerLeft(Universe(repositories), start.Keys, available.entries.Keys);
      GetPackageDependencies(DependencyIdentity(dependencies[j]), repositories, available);
    }
    assert dependencies[..|dependencies|] == dependencies;
  }

  // ---------------------------------------------------------------------------
  // What the walk guarantees
  // ---------------------------------------------------------------------------

  /** The package a dependency names is present, or no repository lists it. */
  ghost predicate Settled(m: Entries, repositories: seq<Repository>, d: Dependency)
  {
    KeyOf(DependencyIdentity(d)) in m || Unavailable(repositories, KeyOf(DependencyIdentity(d)))
  }

  /** Every entry outside `pending` has each of its dependencies settled. */
  ghost predicate ClosedExcept(m: Entries, repositories: seq<Repository>, pending: set<PackageKey>)
  {
    forall k, j :: k in m && k !in pending && 0 <= j < |m[k].dependencies| ==>
      Settled(m, repositories, m[k].dependencies[j])
  }

  lemma SettledGrows(m: Entries, r: Entries, repositories: seq<Repository>, d: Dependency)
    requires Grows(m, r) && Settled(m, repositories, d)
    ensures Settled(r, repositories, d)
  {
  }

  /** Adding a new entry keeps closed the entries that were closed. */
  lemma ClosedAfterAdd(m: Entries, repositories: seq<Repository>, pending: set<PackageKey>, key: PackageKey, info: DependencyInfo)
    requires key !in m && ClosedExcept(m, repositories, pending)
    ensures ClosedExcept(m[key := info], repositories, pending + {key})
  {
    var first := m[key := info];
    forall k, j | k in first && k !in pending + {key} && 0 <= j < |first[k].dependencies|
      ensures Settled(first, repositories, first[k].dependencies[j])
    {
      assert first[k] == m[k];
      SettledGrows(m, first, repositories, m[k].dependencies[j]);
    }
  }

  /** An entry whose dependencies are all settled is closed. */
  lemma ClosedAfterWalk(r: Entries, repositories: seq<Repository>, pending: set<PackageKey>, key: PackageKey, info: DependencyInfo)
    requires ClosedExcept(r, repositories, pending + {key})
    requires key in r && r[key] == info
    requires forall j :: 0 <= j < |info.dependencies| ==> Settled(r, repositories, info.dependencies[j])
    ensures ClosedExcept(r, repositories, pending)
  {
  }

  /** Dependencies settled before the walk from the last one stay settled after it. */
  lemma SettledAfterLast(dependencies: seq<Dependency>, init: seq<Dependency>, repositories: seq<Repository>, before: Entries, r: Entries)
    requires dependencies != [] && init == dependencies[..|dependencies| - 1] && Grows(before, r)
    requires forall j :: 0 <= j < |init| ==> Settled(before, repositories, init[j])
    requires Settled(r, repositories, dependencies[|dependencies| - 1])
    ensures forall j :: 0 <= j < |dependencies| ==> Settled(r, repositories, dependencies[j])
  {
    forall j | 0 <= j < |dependencies| - 1 ensures Settled(r, repositories, dependencies[j]) {
      assert init[j] == dependencies[j];
      SettledGrows(before, r, repositories, dependencies[j]);
    }
  }

  /** The walk changes nothing for a package that is already present (and asks no
      repository), nor for one that no repository lists. */
  lemma DiscoverSkips(package: PackageIdentity, repositories: seq<Repository>, m: Entries)
    ensures KeyOf(package) in m ==> Discover(package, repositories, m) == m
    ensures Unavailable(repositories, KeyOf(package)) ==> Discover(package, repositories, m) == m
  {
  }

  /** After the walk from a package, it is present or no repository lists it. */
  lemma DiscoverSettles(package: PackageIdentity, repositories: seq<Repository>, m: Entries)
    requires WellFormedRegistry(repositories)
    ensures var r := Discover(package, repositories, m);
      KeyOf(package) in r || Unavailable(repositories, KeyOf(package))
  {
  }

  /** The walk keeps closed every entry that was closed, and leaves the new entries closed. */
  lemma {:induction false} DiscoverClosed(package: PackageIdentity, repositories: seq<Repository>, m: Entries, pending: set<PackageKey>)
    requires WellFormedRegistry(repositories)
    requires ClosedExcept(m, repositories, pending)
    ensures ClosedExcept(Discover(package, repositories, m), repositories, pending)
    decreases |Universe(repositories) - m.Keys|, 0
  {
    var key := KeyOf(package);
    if key !in m {
      match FirstAnswering(repositories, key, 0)
      case None =>
      case Some(i) =>
        var info := ResolvePackage(repositories[i], package).value;
        OneFewerLeft(repositories, i, m, key, info);
        var first := m[key := info];
        ClosedAfterAdd(m, repositories, pending, key, info);
        DiscoverAllClosed(info.dependencies, repositories, first, pending + {key});
        DiscoverAllKeeps(info.dependencies, repositories, first);
        var r := DiscoverAll(info.dependencies, repositories, first);
        ClosedAfterWalk(r, repositories, pending, key, info);
      }
  }

  /** The walks from a list of dependencies keep closure and settle every one of them. */
  lemma {:induction false} DiscoverAllClosed(dependencies: seq<Dependency>, repositories: seq<Repository>, m: Entries, pending: set<PackageKey>)
    requires WellFormedRegistry(repositories)
    requires ClosedExcept(m, repositories, pending)
    ensures var r := DiscoverAll(dependencies, repositories, m);
      ClosedExcept(r, repositories, pending)
      && forall j :: 0 <= j < |dependencies| ==> Settled(r, repositories, dependencies[j])
    decreases |Universe(repositories) - m.Keys|, |dependencies|
  {
    if dependencies != [] {
      var init := dependencies[..|dependencies| - 1];
      var last := dependencies[|dependencies| - 1];
      DiscoverAllClosed(init, repositories, m, pending);
      var before := DiscoverAll(init, repositories, m);
      FewerLeft(Universe(repositories), m.Keys, before.Keys);
      DiscoverClosed(DependencyIdentity(last), repositories, before, pending);
      DiscoverKeeps(DependencyIdentity(last), repositories, before);
      DiscoverSettles(DependencyIdentity(last), repositories, before);
      SettledAfterLast(dependencies, init, repositories, before, Discover(DependencyIdentity(last), repositories, before));
    }
  }

  /** Starting from an empty set, the walk from a root yields the root (unless no
      repository lists it) and, for every package it holds, each dependency's package
      (unless no repository lists it): the set is closed under dependencies, even when
      the dependency graph has cycles. */
  lemma DiscoveryIsClosed(root: PackageIdentity, repositories: seq<Repository>)
    requires WellFormedRegistry(repositories)
    ensures var r := Discover(root, repositories, map[]);
      (KeyOf(root) in r || Unavailable(repositories, KeyOf(root)))
      && ClosedExcept(r, repositories, {})
      && Keyed(r) && SourcedFrom(r, repositories)
  {
    DiscoverClosed(root, repositories, map[], {});
    DiscoverSettles(root, repositories, map[]);
    DiscoverKeeps(root, repositories, map[]);
  }

  /** The listing of the first repository that lists `key`: the one the walk keeps. */
  function FirstListing(repositories: seq<Repository>, key: PackageKey): (r: Option<Listing>)
    ensures r.Some? <==> !Unavailable(repositories, key)
  {
    match FirstAnswering(repositories, key, 0)
    case None => None
    case Some(i) => Some(repositories[i].listings[key])
  }

  /** Every package in `keys` that some repository lists has the packages of all the
      dependencies of its kept listing in `keys`. */
  ghost predicate DependencyClosed(keys: set<PackageKey>, repositories: seq<Repository>)
  {
    forall k, j ::
      (k in keys && FirstListing(repositories, k).Some?
       && 0 <= j < |FirstListing(repositories, k).value.dependencies|) ==>
        KeyOf(DependencyIdentity(FirstListing(repositories, k).value.dependencies[j])) in keys
  }

  /** The walk from a package of a closed set adds only packages of that set. */
  lemma {:induction false} DiscoverWithin(package: PackageIdentity, repositories: seq<Repository>, m: Entries, keys: set<PackageKey>)
    requires DependencyClosed(keys, repositories) && KeyOf(package) in keys
    ensures Discover(package, repositories, m).Keys <= m.Keys + keys
    decreases |Universe(repositories) - m.Keys|, 0
  {
    var key := KeyOf(package);
    if key !in m {
      match FirstAnswering(repositories, key, 0)
      case None =>
      case Some(i) =>
        var info := ResolvePackage(repositories[i], package).value;
        OneFewerLeft(repositories, i, m, key, info);
        assert info.dependencies == FirstListing(repositories, key).value.dependencies;
        DiscoverAllWithin(info.dependencies, repositories, m[key := info], keys);
    }
  }

  /** The walks from dependencies whose packages lie in a closed set add only packages
      of that set. */
  lemma {:induction false} DiscoverAllWithin(dependencies: seq<Dependency>, repositories: seq<Repository>, m: Entries, keys: set<PackageKey>)
    requires DependencyClosed(keys, repositories)
    requires forall j :: 0 <= j < |dependencies| ==> KeyOf(DependencyIdentity(dependencies[j])) in keys
    ensures DiscoverAll(dependencies, repositories, m).Keys <= m.Keys + keys
    decreases |Universe(repositories) - m.Keys|, |dependencies|
  {
    if dependencies != [] {
      var init := dependencies[..|dependencies| - 1];
      DiscoverAllWithin(init, repositories, m, keys);
      var before := DiscoverAll(init, repositories, m);
      FewerLeft(Universe(repositories), m.Keys, before.Keys);
      DiscoverWithin(DependencyIdentity(dependencies[|dependencies| - 1]), repositories, before, keys);
    }
  }

  /** The walk from a root discovers nothing it need not: its packages lie within every
      set that holds the root and is closed under the dependencies of kept listings. */
  lemma DiscoveryIsMinimal(root: PackageIdentity, repositories: seq<Repository>, keys: set<PackageKey>)
    requires KeyOf(root) in keys && DependencyClosed(keys, repositories)
    ensures Discover(root, repositories, map[]).Keys <= keys
  {
    DiscoverWithin(root, repositories, map[], keys);
  }

  /** The first repository that answers for a package is the one whose answer is kept;
      later repositories are not asked. */
  lemma FirstAnswerIsKept(package: PackageIdentity, repositories: seq<Repository>, m: Entries, i: nat)
    requires WellFormedRegistry(repositories)
    requires KeyOf(package) !in m
    requires i < |repositories| && KeyOf(package) in repositories[i].listings
    requires forall j :: 0 <= j < i ==> KeyOf(package) !in repositories[j].listings
    ensures var r := Discover(package, repositories, m);
      KeyOf(package) in r && r[KeyOf(package)] == ResolvePackage(repositories[i], package).value
  {
    var key := KeyOf(package);
    assert FirstAnswering(repositories, key, 0) == Some(i);
    var info := ResolvePackage(repositories[i], package).value;
    DiscoverAllKeeps(info.dependencies, repositories, m[key := info]);
  }
}
