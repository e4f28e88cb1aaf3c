/**
 * `resolveDependencies` of `packages/cli/src/utils/registry.ts`: a
 * depth-first walk over `registryDependencies` that appends a component only
 * after its dependencies, skips names already in the `resolved` set, and
 * aborts on an unknown name.
 *
 * A name joins `resolved` only after its dependencies have been walked, so on
 * a cycle that the requests reach there is no termination guarantee: the
 * recursion never completes, and the engine's stack limit ends it. A cycle
 * elsewhere in the registry does no harm. The model therefore takes a partial
 * ranking: its domain holds every known requested name and, with each known
 * name, that name's known dependencies, each ranked strictly lower. Such a
 * ranking exists exactly when no cycle is reachable from the requests.
 *
 * `VisitSeq` is the walk as a function of the state `Walk(resolved, order)`;
 * `Reach` is an independent definition of the names reachable from a list of
 * requests. `ResolveSession.ResolveComponent` is the recursive closure as a
 * method over mutable state, proved against `VisitSeq`, and
 * `ResolveDependencies` is the whole operation.
 */
module Resolver {
  import opened Wrappers
  import opened Types
  import opened RegistryClient

  datatype ResolveError = NotFound(name: string)

  /** The `registryDependencies` of a name; a missing field or name has none. */
  function Deps(reg: Registry, n: string): seq<string> {
    match Lookup(reg, n)
    case None => []
    case Some(c) => OrEmpty(c.registryDependencies)
  }

  /** A missing `registryDependencies` field contributes no edges. */
  lemma MissingDepsAreNone(reg: Registry, n: string)
    requires n in Names(reg) && Lookup(reg, n).value.registryDependencies.None?
    ensures Deps(reg, n) == []
  {
  }

  /**
   * `rank` orders part of the registry without cycles: every known
   * dependency of a ranked, known name is ranked, and strictly lower.
   */
  ghost predicate Ranked(reg: Registry, rank: map<string, nat>) {
    forall n :: n in rank && n in Names(reg) ==>
      forall d :: d in Deps(reg, n) && d in Names(reg) ==> d in rank && rank[d] < rank[n]
  }

  /** Every known name of `names` is ranked, so no cycle is reachable from them. */
  ghost predicate Covered(reg: Registry, rank: map<string, nat>, names: seq<string>) {
    forall x :: x in names && x in Names(reg) ==> x in rank
  }

  ghost function Height(reg: Registry, rank: map<string, nat>, n: string): nat {
    if n in Names(reg) && n in rank then rank[n] + 1 else 0
  }

  ghost function MaxHeight(reg: Registry, rank: map<string, nat>, ns: seq<string>): nat {
    if ns == [] then 0
    else
      var h, t := Height(reg, rank, ns[0]), MaxHeight(reg, rank, ns[1..]);
      if h < t then t else h
  }

  lemma {:induction false} MaxHeightBelow(reg: Registry, rank: map<string, nat>, ns: seq<string>, b: nat)
    requires b > 0
    requires forall x :: x in ns ==> Height(reg, rank, x) < b
    ensures MaxHeight(reg, rank, ns) < b
  {
    if ns != [] {
      MaxHeightBelow(reg, rank, ns[1..], b);
    }
  }

  /** The dependencies of a ranked, known name are ranked and all sit lower than the name. */
  lemma DepsBelow(reg: Registry, rank: map<string, nat>, n: string)
    requires Ranked(reg, rank) && n in Names(reg) && n in rank
    ensures Covered(reg, rank, Deps(reg, n))
    ensures MaxHeight(reg, rank, Deps(reg, n)) < Height(reg, rank, n)
  {
    MaxHeightBelow(reg, rank, Deps(reg, n), Height(reg, rank, n));
  }

  /** The state of one resolution: the `resolved` set and the names appended so far. */
  datatype Walk = Walk(visited: set<string>, order: seq<string>)

  const Start := Walk({}, [])

  /**
   * `resolveComponent` applied to each of `names` in turn, from state `st`:
   * skip a resolved name, fail on an unknown one, otherwise walk its
   * dependencies first, then mark and append it.
   */
  ghost function VisitSeq(reg: Registry, rank: map<string, nat>, names: seq<string>, st: Walk): Result<Walk, ResolveError>
    requires Ranked(reg, rank) && Covered(reg, rank, names)
    decreases MaxHeight(reg, rank, names), |names|
  {
    if names == [] then Success(st)
    else
      var n := names[0];
      if n in st.visited then VisitSeq(reg, rank, names[1..], st)
      else
        match Lookup(reg, n)
        case None => Failure(NotFound(n))
        case Some(c) =>
          DepsBelow(reg, rank, n);
          match VisitSeq(reg, rank, Deps(reg, n), st)
          case Failure(e) => Failure(e)
          case Success(st1) => VisitSeq(reg, rank, names[1..], Walk(st1.visited + {n}, st1.order + [n]))
  }

  /** The resolution of a request list from an empty state. */
  ghost function Resolve(reg: Registry, rank: map<string, nat>, names: seq<string>): Result<Walk, ResolveError>
    requires Ranked(reg, rank) && Covered(reg, rank, names)
  {
    VisitSeq(reg, rank, names, Start)
  }

  /** The names reachable from `names` through `registryDependencies`, the names themselves included. */
  ghost function Reach(reg: Registry, rank: map<string, nat>, names: seq<string>): set<string>
    requires Ranked(reg, rank) && Covered(reg, rank, names)
    decreases MaxHeight(reg, rank, names), |names|
  {
    if names == [] then {}
    else
      var n := names[0];
      var below := if n in Names(reg) then (DepsBelow(reg, rank, n); Reach(reg, rank, Deps(reg, n))) else {};
      {n} + below + Reach(reg, rank, names[1..])
  }

  // ---------------------------------------------------------------------------
  // What Reach is: the least set that holds the requests and is closed under
  // the dependency edges of its known members.

  ghost predicate Closed(reg: Registry, s: set<string>) {
    forall x, d :: x in s && x in Names(reg) && d in Deps(reg, x) ==> d in s
  }

  lemma {:induction false} ReachHoldsRequests(reg: Registry, rank: map<string, nat>, names: seq<string>)
    requires Ranked(reg, rank) && Covered(reg, rank, names)
    ensures forall x :: x in names ==> x in Reach(reg, rank, names)
    decreases |names|
  {
    if names != [] {
      ReachHoldsRequests(reg, rank, names[1..]);
      forall x | x in names ensures x in Reach(reg, rank, names) {
        if x != names[0] { assert x in names[1..]; }
      }
    }
  }

  lemma {:induction false} ReachClosed(reg: Registry, rank: map<string, nat>, names: seq<string>)
    requires Ranked(reg, rank) && Covered(reg, rank, names)
    ensures Closed(reg, Reach(reg, rank, names))
    decreases MaxHeight(reg, rank, names), |names|
  {
    if names != [] {
      var n := names[0];
      var r := Reach(reg, rank, names);
      ReachClosed(reg, rank, names[1..]);
      if n in Names(reg) {
        DepsBelow(reg, rank, n);
        ReachClosed(reg, rank, Deps(reg, n));
        ReachHoldsRequests(reg, rank, Deps(reg, n));
      }
      forall x, d | x in r && x in Names(reg) && d in Deps(reg, x) ensures d in r {
        if x == n {
        } else if x in Reach(reg, rank, names[1..]) {
        } else {
          assert d in Reach(reg, rank, Deps(reg, n));
        }
      }
    }
  }

  lemma {:induction false} ReachLeast(reg: Registry, rank: map<string, nat>, names: seq<string>, s: set<string>)
    requires Ranked(reg, rank) && Covered(reg, rank, names)
    requires forall x :: x in names ==> x in s
    requires Closed(reg, s)
    ensures Reach(reg, rank, names) <= s
    decreases MaxHeight(reg, rank, names), |names|
  {
    if names != [] {
      var n := names[0];
      ReachLeast(reg, rank, names[1..], s);
      if n in Names(reg) {
        DepsBelow(reg, rank, n);
        ReachLeast(reg, rank, Deps(reg, n), s);
      }
    }
  }

  /** Every name reachable from `names` has height at most theirs. */
  lemma {:induction false} ReachHeight(reg: Registry, rank: map<string, nat>, names: seq<string>)
    requires Ranked(reg, rank) && Covered(reg, rank, names)
    ensures forall x :: x in Reach(reg, rank, names) ==> Height(reg, rank, x) <= MaxHeight(reg, rank, names)
    decreases MaxHeight(reg, rank, names), |names|
  {
    if names != [] {
      var n := names[0];
      ReachHeight(reg, rank, names[1..]);
      if n in Names(reg) {
        DepsBelow(reg, rank, n);
        ReachHeight(reg, rank, Deps(reg, n));
      }
    }
  }

  // ---------------------------------------------------------------------------
  // Invariant of the walk's state, and the main theorem about VisitSeq.

  ghost predicate NoDuplicates(s: seq<string>) {
    forall i, j :: 0 <= i < j < |s| ==> s[i] != s[j]
  }

  /** Every dependency of an appended name was appended before it. */
  ghost predicate DepsFirst(reg: Registry, s: seq<string>) {
    forall i, d :: 0 <= i < |s| && d in Deps(reg, s[i]) ==> d in s[..i]
  }

  ghost predicate Inv(reg: Registry, st: Walk) {
    && (forall x :: x in st.visited <==> x in st.order)
    && NoDuplicates(st.order)
    && (forall x :: x in st.order ==> x in Names(reg))
    && DepsFirst(reg, st.order)
  }

  lemma InvStart(reg: Registry)
    ensures Inv(reg, Start)
  {
  }

  /** Appending a known, fresh name whose dependencies are already resolved keeps the invariant. */
  lemma InvAppend(reg: Registry, st: Walk, n: string)
    requires Inv(reg, st)
    requires n in Names(reg) && n !in st.visited
    requires forall d :: d in Deps(reg, n) ==> d in st.visited
    ensures Inv(reg, Walk(st.visited + {n}, st.order + [n]))
  {
    var o := st.order + [n];
    forall i, d | 0 <= i < |o| && d in Deps(reg, o[i]) ensures d in o[..i] {
      if i < |st.order| {
        assert o[..i] == st.order[..i];
      } else {
        assert o[..i] == st.order;
      }
    }
  }

  /** The resolved set of a valid state is closed and holds only known names. */
  lemma InvClosed(reg: Registry, st: Walk)
    requires Inv(reg, st)
    ensures Closed(reg, st.visited)
  {
    forall x, d | x in st.visited && x in Names(reg) && d in Deps(reg, x) ensures d in st.visited {
      var i :| 0 <= i < |st.order| && st.order[i] == x;
      assert d in st.order[..i];
    }
  }

  /** Everything reachable from a resolved name is already resolved. */
  lemma VisitedReach(reg: Registry, rank: map<string, nat>, st: Walk, n: string)
    requires Ranked(reg, rank) && Inv(reg, st) && n in st.visited && n in rank
    ensures n in Names(reg) && Reach(reg, rank, Deps(reg, n)) <= st.visited
  {
    InvClosed(reg, st);
    ReachLeast(reg, rank, Deps(reg, n), st.visited);
  }

  /**
   * Once the dependencies of a fresh, known name are resolved, the name is
   * still fresh, and appending it keeps the invariant.
   */
  lemma AppendAfterDeps(reg: Registry, rank: map<string, nat>, n: string, st: Walk, st1: Walk)
    requires Ranked(reg, rank) && n in Names(reg) && n in rank && n !in st.visited
    requires Inv(reg, st1) && st1.visited == st.visited + Reach(reg, rank, Deps(reg, n))
    ensures n !in st1.visited
    ensures Inv(reg, Walk(st1.visited + {n}, st1.order + [n]))
  {
    var deps := Deps(reg, n);
    DepsBelow(reg, rank, n);
    ReachHeight(reg, rank, deps);
    ReachHoldsRequests(reg, rank, deps);
    InvAppend(reg, st1, n);
  }

  /**
   * The walk from a valid state succeeds exactly when every reachable name is
   * known; on failure it names an unknown reachable name; on success the new
   * state is valid, extends the old order, and has resolved precisely the old
   * names plus the reachable ones.
   */
  lemma {:induction false} VisitSeqSpec(reg: Registry, rank: map<string, nat>, names: seq<string>, st: Walk)
    requires Ranked(reg, rank) && Covered(reg, rank, names) && Inv(reg, st)
    ensures VisitSeq(reg, rank, names, st).Success? <==> Reach(reg, rank, names) <= Names(reg)
    ensures VisitSeq(reg, rank, names, st).Failure? ==>
      var e := VisitSeq(reg, rank, names, st).error.name;
      e in Reach(reg, rank, names) && e !in Names(reg)
    ensures VisitSeq(reg, rank, names, st).Success? ==>
      var st' := VisitSeq(reg, rank, names, st).value;
      && Inv(reg, st')
      && st.order <= st'.order
      && st'.visited == st.visited + Reach(reg, rank, names)
    decreases MaxHeight(reg, rank, names), |names|
  {
    if names != [] {
      var n, tail := names[0], names[1..];
      if n in st.visited {
        VisitSeqSpec(reg, rank, tail, st);
        VisitedReach(reg, rank, st, n);
        assert Reach(reg, rank, names) == {n} + Reach(reg, rank, Deps(reg, n)) + Reach(reg, rank, tail);
      } else if n in Names(reg) {
        var deps := Deps(reg, n);
        DepsBelow(reg, rank, n);
        VisitSeqSpec(reg, rank, deps, st);
        assert Reach(reg, rank, names) == {n} + Reach(reg, rank, deps) + Reach(reg, rank, tail);
        var r1 := VisitSeq(reg, rank, deps, st);
        if r1.Success? {
          var st1 := r1.value;
          AppendAfterDeps(reg, rank, n, st, st1);
          var st2 := Walk(st1.visited + {n}, st1.order + [n]);
          VisitSeqSpec(reg, rank, tail, st2);
          assert VisitSeq(reg, rank, names, st) == VisitSeq(reg, rank, tail, st2);
        }
      }
    }
  }

  /**
   * Resolution of a request list: it fails exactly when a reachable name is
   * unknown, naming one; it succeeds with every reachable name exactly once,
   * nothing else, and each after its own dependencies.
   */
  lemma ResolveCorrect(reg: Registry, rank: map<string, nat>, names: seq<string>)
    requires Ranked(reg, rank) && Covered(reg, rank, names)
    ensures Resolve(reg, rank, names).Success? <==> Reach(reg, rank, names) <= Names(reg)
    ensures Resolve(reg, rank, names).Failure? ==>
      var e := Resolve(reg, rank, names).error.name;
      e in Reach(reg, rank, names) && e !in Names(reg)
    ensures Resolve(reg, rank, names).Success? ==>
      var order := Resolve(reg, rank, names).value.order;
      && NoDuplicates(order)
      && DepsFirst(reg, order)
      && (forall x :: x in order <==> x in Reach(reg, rank, names))
  {
    InvStart(reg);
    VisitSeqSpec(reg, rank, names, Start);
  }

  /** A requested name that the registry does not know aborts the resolution. */
  lemma UnknownRequestFails(reg: Registry, rank: map<string, nat>, names: seq<string>, i: nat)
    requires Ranked(reg, rank) && Covered(reg, rank, names)
    requires i < |names| && names[i] !in Names(reg)
    ensures Resolve(reg, rank, names).Failure?
  {
    ReachHoldsRequests(reg, rank, names);
    ResolveCorrect(reg, rank, names);
  }

  /** Walking `a + b` walks `a`, then `b` from where `a` left off. */
  lemma {:induction false} VisitSeqAppend(reg: Registry, rank: map<string, nat>, a: seq<string>, b: seq<string>, st: Walk)
    requires Ranked(reg, rank) && Covered(reg, rank, a) && Covered(reg, rank, b)
    ensures VisitSeq(reg, rank, a + b, st) ==
      match VisitSeq(reg, rank, a, st)
      case Failure(e) => Failure(e)
      case Success(st') => VisitSeq(reg, rank, b, st')
    decreases |a|
  {
    if a == [] {
      assert a + b == b;
    } else {
      var n := a[0];
      assert (a + b)[0] == n;
      assert (a + b)[1..] == a[1..] + b;
      if n in st.visited {
        VisitSeqAppend(reg, rank, a[1..], b, st);
      } else if n in Names(reg) {
        match VisitSeq(reg, rank, Deps(reg, n), st)
        case Failure(e) =>
        case Success(st1) =>
          VisitSeqAppend(reg, rank, a[1..], b, Walk(st1.visited + {n}, st1.order + [n]));
      }
    }
  }

  /**
   * Requests are walked in the order given: the resolution of a prefix of the
   * requests is a prefix of the whole resolution, and a failing prefix aborts
   * the whole.
   */
  lemma ResolvePrefix(reg: Registry, rank: map<string, nat>, a: seq<string>, b: seq<string>)
    requires Ranked(reg, rank) && Covered(reg, rank, a) && Covered(reg, rank, b)
    ensures Resolve(reg, rank, a).Failure? ==> Resolve(reg, rank, a + b) == Resolve(reg, rank, a)
    ensures Resolve(reg, rank, a + b).Success? ==>
      Resolve(reg, rank, a).Success? && Resolve(reg, rank, a).value.order <= Resolve(reg, rank, a + b).value.order
  {
    VisitSeqAppend(reg, rank, a, b, Start);
    InvStart(reg);
    VisitSeqSpec(reg, rank, a, Start);
    if Resolve(reg, rank, a).Success? {
      VisitSeqSpec(reg, rank, b, Resolve(reg, rank, a).value);
    }
  }

  /** Requesting a name that is already resolved changes nothing. */
  lemma RequestAgain(reg: Registry, rank: map<string, nat>, a: seq<string>, n: string)
    requires Ranked(reg, rank) && Covered(reg, rank, a) && Covered(reg, rank, [n])
    requires Resolve(reg, rank, a).Success? && n in Resolve(reg, rank, a).value.order
    ensures Resolve(reg, rank, a + [n]) == Resolve(reg, rank, a)
  {
    VisitSeqAppend(reg, rank, a, [n], Start);
    InvStart(reg);
    VisitSeqSpec(reg, rank, a, Start);
  }

  /**
   * Requesting `card` (which depends on `button`) and then `button` yields
   * `button` before `card`, each once.
   */
  lemma CardAfterButton(button: ComponentInfo, card: ComponentInfo)
    requires button.registryDependencies.None? && card.registryDependencies == Some(["button"])
    ensures var reg := Registry(Record(["button", "card"], map["button" := button, "card" := card]), Record([], map[]));
      var rank := map["button" := 0, "card" := 1];
      Ranked(reg, rank) && Covered(reg, rank, ["card", "button"]) &&
      Resolve(reg, rank, ["card", "button"]) == Success(Walk({"button", "card"}, ["button", "card"]))
  {
    var reg := Registry(Record(["button", "card"], map["button" := button, "card" := card]), Record([], map[]));
    var rank := map["button" := 0, "card" := 1];
    assert Names(reg) == {"button", "card"};
    assert Deps(reg, "button") == [];
    assert Deps(reg, "card") == ["button"];
    assert Ranked(reg, rank);
    var w1 := Walk({"button"}, ["button"]);
    var w2 := Walk({"button", "card"}, ["button", "card"]);
    assert ["button"][1..] == [];
    assert Lookup(reg, "button") == Some(button);
    assert Lookup(reg, "card") == Some(card);
    assert VisitSeq(reg, rank, [], Start) == Success(Start);
    assert Start.visited + {"button"} == w1.visited && Start.order + ["button"] == w1.order;
    assert VisitSeq(reg, rank, ["button"], Start) == VisitSeq(reg, rank, [], w1);
    assert VisitSeq(reg, rank, ["button"], Start) == Success(w1);
    assert w1.visited + {"card"} == w2.visited && w1.order + ["card"] == w2.order;
    assert VisitSeq(reg, rank, ["button"], w2) == Success(w2);
    assert ["card", "button"][1..] == ["button"];
    assert VisitSeq(reg, rank, ["card", "button"], Start) == VisitSeq(reg, rank, ["button"], w2);
  }

  /**
   * A component that lists itself among its `registryDependencies` admits no
   * ranking once it is requested: resolving it would recurse without end, so
   * that request lies outside the model.
   */
  lemma SelfDependencyUnranked(c: ComponentInfo, rank: map<string, nat>)
    requires c.registryDependencies == Some(["a"])
    ensures var reg := Registry(Record(["a"], map["a" := c]), Record([], map[]));
      !(Ranked(reg, rank) && Covered(reg, rank, ["a"]))
  {
    var reg := Registry(Record(["a"], map["a" := c]), Record([], map[]));
    assert "a" in Names(reg);
    assert Deps(reg, "a") == ["a"];
  }

  /**
   * A cycle the requests never reach does not matter: with `a` depending on
   * itself, requesting only `c` still resolves to `c`.
   */
  lemma UnreachableCycleResolves(a: ComponentInfo, c: ComponentInfo)
    requires a.registryDependencies == Some(["a"]) && c.registryDependencies.None?
    ensures var reg := Registry(Record(["a", "c"], map["a" := a, "c" := c]), Record([], map[]));
      var rank := map["c" := 0];
      Ranked(reg, rank) && Covered(reg, rank, ["c"]) &&
      Resolve(reg, rank, ["c"]) == Success(Walk({"c"}, ["c"]))
  {
    var reg := Registry(Record(["a", "c"], map["a" := a, "c" := c]), Record([], map[]));
    var rank := map["c" := 0];
    assert Names(reg) == {"a", "c"};
    assert Lookup(reg, "c") == Some(c);
    assert Deps(reg, "c") == [];
    assert Ranked(reg, rank);
    assert ["c"][1..] == [];
    assert VisitSeq(reg, rank, [], Start) == Success(Start);
    assert Covered(reg, rank, ["c"]);
    var w := Walk({"c"}, ["c"]);
    assert Start.visited + {"c"} == w.visited && Start.order + ["c"] == w.order;
    assert VisitSeq(reg, rank, ["c"], Start) == VisitSeq(reg, rank, [], w);
  }

  // ---------------------------------------------------------------------------
  // The imperative resolver.

  /** The components pushed so far are the fetched entries of the names appended, in order. */
  ghost predicate Materialized(reg: Registry, store: FileStore, order: seq<string>, components: seq<ComponentInfo>) {
    |components| == |order| && forall i :: 0 <= i < |order| ==> FetchComponent(reg, store, order[i]) == Some(components[i])
  }

  /** The walk of a single name: already resolved, unknown, or its dependencies and then itself. */
  lemma VisitOne(reg: Registry, rank: map<string, nat>, n: string, st: Walk)
    requires Ranked(reg, rank) && Covered(reg, rank, [n])
    ensures n in st.visited ==> VisitSeq(reg, rank, [n], st) == Success(st)
    ensures n !in st.visited && n !in Names(reg) ==> VisitSeq(reg, rank, [n], st) == Failure(NotFound(n))
    ensures n !in st.visited && n in Names(reg) ==>
      VisitSeq(reg, rank, [n], st) ==
        match VisitSeq(reg, rank, Deps(reg, n), st)
        case Failure(e) => Failure(e)
        case Success(st1) => Success(Walk(st1.visited + {n}, st1.order + [n]))
  {
    assert [n][1..] == [];
  }

  /** Walking the `i`-th dependency of `n` first: it ranks below `n`, and the rest follows from its result. */
  lemma DepStep(reg: Registry, rank: map<string, nat>, n: string, i: nat, st: Walk)
    requires Ranked(reg, rank) && n in Names(reg) && n in rank && i < |Deps(reg, n)|
    ensures Covered(reg, rank, Deps(reg, n))
    ensures Height(reg, rank, Deps(reg, n)[i]) < Height(reg, rank, n)
    ensures VisitSeq(reg, rank, Deps(reg, n)[i..], st) ==
      match VisitSeq(reg, rank, [Deps(reg, n)[i]], st)
      case Failure(e) => Failure(e)
      case Success(st') => VisitSeq(reg, rank, Deps(reg, n)[i + 1..], st')
  {
    var deps := Deps(reg, n);
    DepsBelow(reg, rank, n);
    MaxHeightAtLeast(reg, rank, deps, i);
    assert deps[i..] == [deps[i]] + deps[i + 1..];
    VisitSeqAppend(reg, rank, [deps[i]], deps[i + 1..], st);
  }

  /** Appending a known name and its fetched entry keeps the two lists in step. */
  lemma MaterializedAppend(reg: Registry, store: FileStore, order: seq<string>, components: seq<ComponentInfo>, n: string)
    requires Materialized(reg, store, order, components) && n in Names(reg)
    ensures FetchComponent(reg, store, n).Some?
    ensures Materialized(reg, store, order + [n], components + [FetchComponent(reg, store, n).value])
  {
  }

  /** The state captured by the `resolveComponent` closure. */
  class ResolveSession {
    const registry: Registry
    const store: FileStore
    ghost const rank: map<string, nat>
    var resolved: set<string>
    var components: seq<ComponentInfo>
    ghost var order: seq<string>

    ghost predicate Valid()
      reads this
    {
      Ranked(registry, rank) && Materialized(registry, store, order, components)
    }

    ghost function State(): Walk
      reads this
    {
      Walk(resolved, order)
    }

    constructor (registry: Registry, store: FileStore, ghost rank: map<string, nat>)
      requires Ranked(registry, rank)
      ensures Valid() && State() == Start && components == []
      ensures this.registry == registry && this.store == store && this.rank == rank
    {
      this.registry := registry;
      this.store := store;
      this.rank := rank;
      resolved := {};
      components := [];
      order := [];
    }

    /** `resolveComponent(name)`; a thrown "not found" error is the `Failure` result. */
    method ResolveComponent(name: string) returns (outcome: Result<(), ResolveError>)
      requires Valid() && Covered(registry, rank, [name])
      modifies this
      ensures Valid()
      ensures VisitSeq(registry, rank, [name], old(State())).Failure? <==> outcome.Failure?
      ensures outcome.Failure? ==> outcome.error == VisitSeq(registry, rank, [name], old(State())).error
      ensures outcome.Success? ==> State() == VisitSeq(registry, rank, [name], old(State())).value
      decreases Height(registry, rank, name)
    {
      ghost var st0 := State();
      VisitOne(registry, rank, name, st0);
      if name in resolved {
        return Success(());
      }
      var component := Lookup(registry, name);
      if component.None? {
        return Failure(NotFound(name));
      }
      ghost var deps := Deps(registry, name);
      if component.value.registryDependencies.Some? {
        var depList := component.value.registryDependencies.value;
        assert depList == deps;
        for i := 0 to |depList|
          invariant Valid()
          invariant VisitSeq(registry, rank, deps, st0) == VisitSeq(registry, rank, depList[i..], State())
        {
          var dep := depList[i];
          DepStep(registry, rank, name, i, State());
          var r := ResolveComponent(dep);
          if r.Failure? {
            return r;
          }
        }
        assert depList[|depList|..] == [];
      }
      MaterializedAppend(registry, store, order, components, name);
      resolved := resolved + {name};
      order := order + [name];
      var withContent := FetchComponent(registry, store, name);
      if withContent.Some? {
        components := components + [withContent.value];
      }
      outcome := Success(());
    }
  }

  lemma {:induction false} MaxHeightAtLeast(reg: Registry, rank: map<string, nat>, ns: seq<string>, i: nat)
    requires i < |ns|
    ensures Height(reg, rank, ns[i]) <= MaxHeight(reg, rank, ns)
  {
    if i > 0 {
      MaxHeightAtLeast(reg, rank, ns[1..], i - 1);
    }
  }

  /**
   * `resolveDependencies(componentNames)`: the fetched entries of the
   * resolution, in resolution order, or the error that aborted it.
   */
  method ResolveDependencies(registry: Registry, store: FileStore, names: seq<string>, ghost rank: map<string, nat>)
    returns (result: Result<seq<ComponentInfo>, ResolveError>)
    requires Ranked(registry, rank) && Covered(registry, rank, names)
    ensures Resolve(registry, rank, names).Failure? ==> result == Failure(Resolve(registry, rank, names).error)
    ensures Resolve(registry, rank, names).Success? ==>
      result.Success? && Materialized(registry, store, Resolve(registry, rank, names).value.order, result.value)
  {
    var session := new ResolveSession(registry, store, rank);
    for i := 0 to |names|
      invariant session.Valid()
      invariant session.registry == registry && session.store == store && session.rank == rank
      invariant Resolve(registry, rank, names) == VisitSeq(registry, rank, names[i..], session.State())
    {
      assert names[i..] == [names[i]] + names[i + 1..];
      VisitSeqAppend(registry, rank, [names[i]], names[i + 1..], session.State());
      var r := session.ResolveComponent(names[i]);
      if r.Failure? {
        return Failure(r.error);
      }
    }
    assert names[|names|..] == [];
    return Success(session.components);
  }
}
