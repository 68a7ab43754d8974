/** Bounded name resolution through static re-exports (`resolve` and its use in `source_counts`,
    scripts/check_contract_sot.py). */
module Resolve {
  import opened Common

  const MAX_PATHS := 256
  const MAX_LENGTH := 512
  const AMBIGUOUS := "<ambiguous-alias>"

  type Names = map<string, set<string>>
  type Exports = map<string, Names>

  function Split(name: string): (parts: seq<string>)
    ensures parts != []
  {
    if name == [] then [""]
    else
      var rest := Split(name[1..]);
      if name[0] == '.' then [""] + rest else [[name[0]] + rest[0]] + rest[1..]
  }

  function Join(parts: seq<string>): string {
    if parts == [] then ""
    else if |parts| == 1 then parts[0]
    else parts[0] + "." + Join(parts[1..])
  }

  function Lookup(exports: Exports, owner: string, symbol: string): set<string> {
    if owner in exports && symbol in exports[owner] then exports[owner][symbol] else {}
  }

  /** What the longest exported prefix of at most `index` parts turns the name into; {} if none is exported. */
  function Rewrite(exports: Exports, parts: seq<string>, index: nat): set<string>
    requires index < |parts|
  {
    if index == 0 then {}
    else
      var targets := Lookup(exports, Join(parts[..index]), parts[index]);
      if targets != {} then Rejoined(targets, parts[index+1..]) else Rewrite(exports, parts, index - 1)
  }

  function Rejoined(targets: set<string>, rest: seq<string>): set<string> {
    set target | target in targets :: Join([target] + rest)
  }

  /** The names one rewriting step leads to. */
  function Next(exports: Exports, name: string): set<string> {
    var parts := Split(name);
    Rewrite(exports, parts, |parts| - 1)
  }

  /** The first `index` parts are an exported module and the next is one of its names. */
  predicate Exported(exports: Exports, parts: seq<string>, index: nat) {
    && 0 < index < |parts|
    && var owner := Join(parts[..index]);
       owner in exports && parts[index] in exports[owner] && exports[owner][parts[index]] != {}
  }

  /** The longest exported prefix has `index` parts, and the name stands for `x` through it. */
  ghost predicate RewritesTo(exports: Exports, parts: seq<string>, index: nat, x: string) {
    && Exported(exports, parts, index)
    && (forall longer :: index < longer < |parts| ==> !Exported(exports, parts, longer))
    && exists target ::
         && target in exports[Join(parts[..index])][parts[index]]
         && x == Join([target] + parts[index+1..])
  }

  lemma {:induction false} RewriteIsLongest(exports: Exports, parts: seq<string>, index: nat, x: string)
    requires index < |parts| && forall longer :: index < longer < |parts| ==> !Exported(exports, parts, longer)
    ensures x in Rewrite(exports, parts, index) <==> exists longest: nat :: RewritesTo(exports, parts, longest, x)
    decreases index
  {
    if index > 0 && Exported(exports, parts, index) {
      assert x in Rewrite(exports, parts, index) <==> RewritesTo(exports, parts, index, x);
      forall longest: nat | RewritesTo(exports, parts, longest, x)
        ensures longest == index
      {
        assert !(longest < index);
      }
    } else if index > 0 {
      RewriteIsLongest(exports, parts, index - 1, x);
    }
  }

  /** `targets` is exactly what the name's longest exported prefix stands for, rejoined with what follows. */
  ghost predicate ThroughLongest(exports: Exports, name: string, targets: set<string>) {
    forall x :: x in targets <==> exists longest: nat :: RewritesTo(exports, Split(name), longest, x)
  }

  lemma NextIsLongest(exports: Exports, name: string)
    ensures ThroughLongest(exports, name, Next(exports, name))
  {
    var parts, next := Split(name), Next(exports, name);
    forall x
      ensures x in next <==> exists longest: nat :: RewritesTo(exports, parts, longest, x)
    {
      RewriteIsLongest(exports, parts, |parts| - 1, x);
    }
  }

  /** The parts of a name, rejoined, are the name, and none holds a dot. */
  lemma {:induction false} SplitJoins(name: string)
    ensures Join(Split(name)) == name && forall i :: 0 <= i < |Split(name)| ==> '.' !in Split(name)[i]
  {
    if name != [] {
      var rest := Split(name[1..]);
      SplitJoins(name[1..]);
      assert name == [name[0]] + name[1..];
      if name[0] == '.' {
        assert ([""] + rest)[1..] == rest;
        assert "" + "." + Join(rest) == name;
      } else if |rest| > 1 {
        assert ([[name[0]] + rest[0]] + rest[1..])[1..] == rest[1..];
        assert [name[0]] + rest[0] + "." + Join(rest[1..]) == [name[0]] + (rest[0] + "." + Join(rest[1..]));
      }
    }
  }

  // ---- reachability, independent of any worklist ----

  /** The rewriting graph: where each name leads, and at which names resolution stops. */
  datatype Graph = Graph(next: string -> set<string>, stops: string -> bool) {
    predicate Final(name: string) {
      stops(name) || next(name) == {}
    }

    ghost predicate Path(path: seq<string>) {
      && path != []
      && forall i :: 0 <= i < |path| - 1 ==> !stops(path[i]) && path[i+1] in next(path[i])
    }

    ghost predicate Reaches(from: string, name: string) {
      exists path :: Path(path) && path[0] == from && path[|path|-1] == name
    }

    /** `name` is one of the authorities `from` stands for. */
    ghost predicate ResolvesTo(from: string, name: string) {
      Reaches(from, name) && Final(name)
    }

    ghost predicate Closed(names: set<string>, besides: seq<string>) {
      forall x, y :: x in names && !stops(x) && y in next(x) ==> y in names || y in besides
    }

    lemma ReachesSelf(from: string)
      ensures Reaches(from, from)
    {
      assert Path([from]);
    }

    lemma ReachesNext(from: string, x: string, y: string)
      requires Reaches(from, x) && !stops(x) && y in next(x)
      ensures Reaches(from, y)
    {
      var path :| Path(path) && path[0] == from && path[|path|-1] == x;
      var longer := path + [y];
      assert forall i :: 0 <= i < |longer| - 1 ==> longer[i] == path[i];
      assert Path(longer);
    }

    lemma {:induction false} PathStaysIn(path: seq<string>, names: set<string>)
      requires Path(path) && path[0] in names && Closed(names, [])
      ensures path[|path|-1] in names
      decreases |path|
    {
      if |path| > 1 {
        var shorter := path[..|path|-1];
        assert Path(shorter);
        PathStaysIn(shorter, names);
      }
    }

    lemma ReachableSubset(from: string, names: set<string>)
      requires from in names && Closed(names, [])
      ensures forall name :: Reaches(from, name) ==> name in names
    {
      forall name | Reaches(from, name)
        ensures name in names
      {
        var path :| Path(path) && path[0] == from && path[|path|-1] == name;
        PathStaysIn(path, names);
      }
    }

    // ---- what the worklist loop keeps ----

    /** Everything queued is reachable, and everything seen has been accounted for. */
    ghost predicate Worklist(from: string, seen: set<string>, pending: seq<string>, resolved: set<string>) {
      && (from in seen || from in pending)
      && (forall x :: x in seen || x in pending ==> Reaches(from, x))
      && (forall x :: x in resolved <==> x in seen && Final(x))
      && Closed(seen, pending)
    }

    lemma SkipSeen(from: string, seen: set<string>, rest: seq<string>, current: string, resolved: set<string>)
      requires Worklist(from, seen, rest + [current], resolved) && current in seen
      ensures Worklist(from, seen, rest, resolved)
    {
      assert forall x :: x in rest + [current] <==> x in rest || x == current;
    }

    lemma Expand(from: string, seen: set<string>, rest: seq<string>, current: string, resolved: set<string>,
                 order: seq<string>)
      requires Worklist(from, seen, rest + [current], resolved)
      requires !stops(current) ==> forall x :: x in order <==> x in next(current)
      requires stops(current) ==> order == []
      ensures Worklist(from, seen + {current}, rest + order, if order == [] then resolved + {current} else resolved)
    {
      assert Final(current) <==> order == [] by {
        assert order != [] ==> order[0] in order;
      }
      assert forall x :: x in rest + [current] <==> x in rest || x == current;
      assert forall x :: x in rest + order <==> x in rest || x in order;
      forall y | y in order
        ensures Reaches(from, y)
      {
        ReachesNext(from, current, y);
      }
    }

    /** What a result promises: without the marker it is exactly the final names `from` reaches; with
        it, the other names are still sound; and nothing is cut off while a small set of short names
        bounds what is reachable. */
    ghost predicate Answers(from: string, resolved: set<string>) {
      && (AMBIGUOUS !in resolved ==> forall x :: x in resolved <==> ResolvesTo(from, x))
      && (forall x :: x in resolved && x != AMBIGUOUS ==> ResolvesTo(from, x))
      && ((exists names :: Bounds(from, names)) ==> forall x :: x in resolved <==> ResolvesTo(from, x))
    }

    lemma Finish(from: string, seen: set<string>, resolved: set<string>)
      requires Worklist(from, seen, [], resolved)
      ensures Answers(from, resolved)
    {
      ReachableSubset(from, seen);
    }

    /** A set of fewer than `MAX_PATHS` short names that holds everything `from` can reach. */
    ghost predicate Bounds(from: string, names: set<string>) {
      && from in names && Closed(names, []) && |names| < MAX_PATHS
      && forall x :: x in names ==> |x| <= MAX_LENGTH
    }

    /** Where a limit binds, no small closed set of short names holds what is reachable. */
    lemma Cut(from: string, seen: set<string>, rest: seq<string>, current: string, resolved: set<string>)
      requires Worklist(from, seen, rest + [current], resolved)
      requires |seen| >= MAX_PATHS || |current| > MAX_LENGTH
      ensures Answers(from, resolved + {AMBIGUOUS})
    {
      assert current in rest + [current];
      forall names | Bounds(from, names)
        ensures false
      {
        ReachableSubset(from, names);
        SmallerSet(seen, names);
      }
    }
  }

  lemma SmallerSet(a: set<string>, b: set<string>)
    requires a <= b
    ensures |a| <= |b|
  {
    if a != {} {
      var x :| x in a;
      SmallerSet(a - {x}, b - {x});
    }
  }

  function GraphOf(exports: Exports, stopAt: Option<set<string>>): Graph {
    Graph(name => Next(exports, name), name => stopAt.Some? && name in stopAt.value)
  }

  // ---- the worklist ----

  /** The members of a set in whatever order the runtime iterates it. */
  method Iterate(names: set<string>) returns (order: seq<string>)
    ensures forall x :: x in order <==> x in names
  {
    order := [];
    var rest := names;
    while rest != {}
      invariant forall x :: x in names <==> x in order || x in rest
      decreases rest
    {
      var x :| x in rest;
      order := order + [x];
      rest := rest - {x};
    }
  }

  /** The for-else over prefixes, longest first. */
  method LongestPrefix(exports: Exports, name: string, ghost stopAt: Option<set<string>>) returns (targets: set<string>)
    ensures targets == GraphOf(exports, stopAt).next(name)
    ensures ThroughLongest(exports, name, targets)
  {
    NextIsLongest(exports, name);
    var parts := Split(name);
    var index := |parts| - 1;
    while index > 0
      invariant 0 <= index < |parts|
      invariant Next(exports, name) == Rewrite(exports, parts, index)
    {
      var found := Lookup(exports, Join(parts[..index]), parts[index]);
      if found != {} {
        return Rejoined(found, parts[index+1..]);
      }
      index := index - 1;
    }
    return {};
  }

  /** `resolve`, whatever the iteration order and whatever cycles the exports contain. */
  method Resolve(name: string, exports: Exports, stopAt: Option<set<string>>) returns (resolved: set<string>)
    ensures GraphOf(exports, stopAt).Answers(name, resolved)
  {
    ghost var graph := GraphOf(exports, stopAt);
    var pending := [name];
    var seen: set<string> := {};
    resolved := {};
    graph.ReachesSelf(name);
    while pending != []
      invariant graph.Worklist(name, seen, pending, resolved)
      invariant |seen| <= MAX_PATHS
      decreases MAX_PATHS - |seen|, |pending|
    {
      var current := pending[|pending|-1];
      var rest := pending[..|pending|-1];
      assert pending == rest + [current];
      if |seen| >= MAX_PATHS || |current| > MAX_LENGTH {
        graph.Cut(name, seen, rest, current, resolved);
        resolved := resolved + {AMBIGUOUS};
        return;
      }
      pending := rest;
      if current in seen {
        graph.SkipSeen(name, seen, rest, current, resolved);
        continue;
      }
      var order := [];
      if !(stopAt.Some? && current in stopAt.value) {
        var targets := LongestPrefix(exports, current, stopAt);
        order := Iterate(targets);
      }
      graph.Expand(name, seen, rest, current, resolved, order);
      seen := seen + {current};
      pending := pending + order;
      if order == [] {
        resolved := resolved + {current};
      }
    }
    graph.Finish(name, seen, resolved);
  }

  ghost predicate SomeReaches(graph: Graph, names: seq<string>, owner: string) {
    exists i :: 0 <= i < |names| && graph.Reaches(names[i], owner)
  }

  lemma SomeReachesStep(graph: Graph, names: seq<string>, i: nat, owner: string)
    requires i < |names|
    ensures SomeReaches(graph, names[..i+1], owner) <==>
              SomeReaches(graph, names[..i], owner) || graph.Reaches(names[i], owner)
  {
    assert names[..i+1] == names[..i] + [names[i]];
    if SomeReaches(graph, names[..i], owner) {
      var k :| 0 <= k < i && graph.Reaches(names[..i][k], owner);
      assert names[..i+1][k] == names[..i][k];
    }
    if graph.Reaches(names[i], owner) {
      assert names[..i+1][i] == names[i];
    }
  }

  /** A name that resolves to the marker itself, or to more than the limits hold. */
  ghost predicate MayFlag(graph: Graph, name: string) {
    graph.ResolvesTo(name, AMBIGUOUS) || !exists bound :: graph.Bounds(name, bound)
  }

  ghost predicate SomeMayFlag(graph: Graph, names: seq<string>) {
    exists i :: 0 <= i < |names| && MayFlag(graph, names[i])
  }

  /** `owners` is what `names` resolve to, or is marked. */
  ghost predicate Charges(graph: Graph, names: seq<string>, owners: set<string>) {
    && (forall owner :: owner in owners && owner != AMBIGUOUS ==> SomeReaches(graph, names, owner))
    && (AMBIGUOUS !in owners ==>
          forall owner :: graph.stops(owner) && SomeReaches(graph, names, owner) ==> owner in owners)
    && (AMBIGUOUS in owners ==> SomeMayFlag(graph, names))
  }

  lemma ChargesStep(graph: Graph, names: seq<string>, i: nat, owners: set<string>, found: set<string>)
    requires i < |names| && Charges(graph, names[..i], owners) && graph.Answers(names[i], found)
    ensures Charges(graph, names[..i+1], owners + found)
  {
    forall owner
      ensures SomeReaches(graph, names[..i+1], owner) <==>
                SomeReaches(graph, names[..i], owner) || graph.Reaches(names[i], owner)
    {
      SomeReachesStep(graph, names, i, owner);
    }
    if AMBIGUOUS in owners {
      var k :| 0 <= k < i && MayFlag(graph, names[..i][k]);
      assert MayFlag(graph, names[..i+1][k]);
    } else if AMBIGUOUS in found {
      assert MayFlag(graph, names[..i+1][i]);
    }
  }

  /** What measuring a node with these names gives: unless it is flagged, a frozen authority is charged
      exactly when one of the names reaches it; and it is flagged only by a name that resolves to the
      marker or past the limits. */
  ghost predicate Measures(graph: Graph, names: seq<string>, frozen: set<string>, charged: set<string>, flagged: bool) {
    && charged <= frozen
    && (forall owner :: owner in charged && owner != AMBIGUOUS ==> SomeReaches(graph, names, owner))
    && (!flagged ==>
          AMBIGUOUS !in charged
          && forall owner :: owner in frozen && SomeReaches(graph, names, owner) ==> owner in charged)
    && (flagged ==> SomeMayFlag(graph, names))
  }

  /** The owners one syntax node is charged to, and whether its resolution was cut off. */
  method MeasureNode(names: seq<string>, exports: Exports, frozen: set<string>)
    returns (charged: set<string>, flagged: bool)
    ensures Measures(GraphOf(exports, Some(frozen)), names, frozen, charged, flagged)
  {
    ghost var graph := GraphOf(exports, Some(frozen));
    var owners: set<string> := {};
    for i := 0 to |names|
      invariant Charges(graph, names[..i], owners)
    {
      var found := Resolve(names[i], exports, Some(frozen));
      ChargesStep(graph, names, i, owners, found);
      owners := owners + found;
    }
    assert names[..|names|] == names;
    flagged := AMBIGUOUS in owners;
    charged := owners * frozen;
  }
}
