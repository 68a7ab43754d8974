/** The shrink-only occurrence ratchet (scripts/check_contract_sot.py): relocation through renames, the
    comparison with the baseline, the manifest's own ratchet, and what `main` accepts and writes.
    A counter of positive occurrences is a multiset. */
module Ratchet {
  import opened Common

  datatype Key = Key(path: string, owner: string, symbol: string)
  type Counts = multiset<Key>

  // ---- the image of a multiset ----

  ghost function Pick<A>(m: multiset<A>): (x: A)
    requires m != multiset{}
    ensures x in m
  {
    var x :| x in m; x
  }

  ghost function Image<A, B>(m: multiset<A>, f: A -> B): multiset<B>
    decreases |m|
  {
    if m == multiset{} then multiset{}
    else Image(m - multiset{Pick(m)}, f) + multiset{f(Pick(m))}
  }

  lemma SwapRemovals<A>(m: multiset<A>, x: A, y: A)
    ensures m - multiset{x} - multiset{y} == m - multiset{y} - multiset{x}
  {
  }

  lemma SwapAdditions<B>(n: multiset<B>, a: multiset<B>, b: multiset<B>)
    ensures n + a + b == n + b + a
  {
  }

  /** The image does not depend on which member is taken first. */
  lemma {:induction false} ImageAdd<A, B>(m: multiset<A>, f: A -> B, x: A)
    requires x in m
    ensures Image(m, f) == Image(m - multiset{x}, f) + multiset{f(x)}
    decreases |m|
  {
    var y := Pick(m);
    if x != y {
      var less := m - multiset{x} - multiset{y};
      assert Image(m - multiset{y}, f) == Image(less, f) + multiset{f(x)} by {
        ImageAdd(m - multiset{y}, f, x);
        SwapRemovals(m, x, y);
      }
      assert Image(m - multiset{x}, f) == Image(less, f) + multiset{f(y)} by {
        ImageAdd(m - multiset{x}, f, y);
      }
      SwapAdditions(Image(less, f), multiset{f(x)}, multiset{f(y)});
    }
  }

  lemma {:induction false} ImageSize<A, B>(m: multiset<A>, f: A -> B)
    ensures |Image(m, f)| == |m|
    decreases |m|
  {
    if m != multiset{} {
      ImageSize(m - multiset{Pick(m)}, f);
    }
  }

  lemma {:induction false} ImageIsMonotone<A, B>(m: multiset<A>, n: multiset<A>, f: A -> B)
    requires m <= n
    ensures Image(m, f) <= Image(n, f)
    decreases |m|
  {
    if m != multiset{} {
      var x := Pick(m);
      ImageAdd(n, f, x);
      ImageIsMonotone(m - multiset{x}, n - multiset{x}, f);
    }
  }

  lemma Cancel<B>(n: multiset<B>, a: multiset<B>)
    ensures n + a - a == n
  {
  }

  lemma {:induction false} ImageComposes<A(!new), B, C>(m: multiset<A>, f: A -> B, g: B -> C, h: A -> C)
    requires forall x :: h(x) == g(f(x))
    ensures Image(Image(m, f), g) == Image(m, h)
    decreases |m|
  {
    if m != multiset{} {
      var x := Pick(m);
      var less := m - multiset{x};
      assert f(x) in Image(m, f);
      ImageAdd(Image(m, f), g, f(x));
      Cancel(Image(less, f), multiset{f(x)});
      ImageComposes(less, f, g, h);
    }
  }

  function Copies<B>(x: B, count: nat): multiset<B> {
    multiset{}[x := count]
  }

  lemma MoreCopies<B>(n: multiset<B>, x: B, count: nat)
    ensures n + Copies(x, count + 1) == n + multiset{x} + Copies(x, count)
    ensures n + Copies(x, count) == n[x := n[x] + count]
  {
  }

  lemma RemoveOne<A>(m: multiset<A>, x: A)
    requires x in m
    ensures (m - multiset{x})[x := 0] == m[x := 0]
    ensures (m - multiset{x})[x] == m[x] - 1
  {
  }

  lemma {:induction false} ImageAddAll<A, B>(m: multiset<A>, f: A -> B, x: A)
    ensures Image(m, f) == Image(m[x := 0], f) + Copies(f(x), m[x])
    decreases m[x]
  {
    if m[x] == 0 {
      assert m[x := 0] == m;
    } else {
      ImageAdd(m, f, x);
      RemoveOne(m, x);
      ImageAddAll(m - multiset{x}, f, x);
      MoreCopies(Image(m[x := 0], f), f(x), m[x] - 1);
      SwapAdditions(Image(m[x := 0], f), Copies(f(x), m[x] - 1), multiset{f(x)});
    }
  }

  // ---- relocated_counts ----

  function Moved(renames: map<string, string>, key: Key): Key {
    if key.path in renames then key.(path := renames[key.path]) else key
  }

  ghost function Authority(key: Key): (string, string) {
    (key.owner, key.symbol)
  }

  /** How often each authority is used, whoever uses it. */
  ghost function Usage(counts: Counts): multiset<(string, string)> {
    Image(counts, key => Authority(key))
  }

  ghost function Relocated(counts: Counts, renames: map<string, string>): Counts {
    Image(counts, key => Moved(renames, key))
  }

  /** `relocated_counts`: add every consumer's whole count at its new path, in any order. */
  method RelocatedCounts(counts: Counts, renames: map<string, string>) returns (relocated: Counts)
    ensures relocated == Relocated(counts, renames) && IsRelocated(counts, renames, relocated)
  {
    relocated := AddAll(counts, renames);
    RelocatedExactly(counts, renames, relocated);
  }

  /** The loop of `RelocatedCounts`. */
  method AddAll(counts: Counts, renames: map<string, string>) returns (relocated: Counts)
    ensures relocated == Relocated(counts, renames)
  {
    relocated := multiset{};
    var rest := counts;
    ghost var move := key => Moved(renames, key);
    while rest != multiset{}
      invariant Relocated(counts, renames) == Image(rest, move) + relocated
      decreases |rest|
    {
      var key :| key in rest;
      var count, destination := rest[key], Moved(renames, key);
      RelocateOne(rest, move, key, relocated);
      Removal(rest, key);
      relocated := relocated[destination := relocated[destination] + count];
      rest := rest[key := 0];
    }
  }

  lemma RelocateOne(rest: Counts, move: Key -> Key, key: Key, relocated: Counts)
    ensures Image(rest, move) + relocated
         == Image(rest[key := 0], move) + relocated[move(key) := relocated[move(key)] + rest[key]]
  {
    ImageAddAll(rest, move, key);
    MoreCopies(relocated, move(key), rest[key]);
    Regroup(Image(rest[key := 0], move), Copies(move(key), rest[key]), relocated);
  }

  lemma Regroup<B>(n: multiset<B>, a: multiset<B>, b: multiset<B>)
    ensures n + a + b == n + (b + a)
  {
  }

  lemma Removal(m: Counts, key: Key)
    requires key in m
    ensures |m[key := 0]| < |m|
  {
    assert m == m[key := 0] + multiset{}[key := m[key]];
  }

  /** Renames, even ones that merge consumers, create and lose nothing: the total and the use of every
      single authority stay what they were. */
  lemma RelocationConserves(counts: Counts, renames: map<string, string>)
    ensures |Relocated(counts, renames)| == |counts|
    ensures Usage(Relocated(counts, renames)) == Usage(counts)
  {
    ImageSize(counts, key => Moved(renames, key));
    ImageComposes(counts, key => Moved(renames, key), key => Authority(key), key => Authority(key));
  }

  /** A consumer at `path` is at `destination` once `renames` are done. */
  predicate Arrives(renames: map<string, string>, path: string, destination: string) {
    if path in renames then renames[path] == destination else path == destination
  }

  /** Every path in use that arrives at `destination`. */
  function ArrivingPaths(counts: Counts, renames: map<string, string>, destination: string): set<string> {
    set key | key in counts && Arrives(renames, key.path, destination) :: key.path
  }

  /** How often consumers at any of `paths` use one authority. */
  ghost function Total(counts: Counts, paths: set<string>, owner: string, symbol: string): nat {
    if paths == {} then 0
    else var path :| path in paths; counts[Key(path, owner, symbol)] + Total(counts, paths - {path}, owner, symbol)
  }

  /** The total does not depend on which path is taken first. */
  lemma {:induction false} TotalTakes(counts: Counts, paths: set<string>, owner: string, symbol: string, path: string)
    requires path in paths
    ensures Total(counts, paths, owner, symbol)
         == counts[Key(path, owner, symbol)] + Total(counts, paths - {path}, owner, symbol)
    decreases |paths|
  {
    var taken :| taken in paths && Total(counts, paths, owner, symbol)
      == counts[Key(taken, owner, symbol)] + Total(counts, paths - {taken}, owner, symbol);
    if taken != path {
      TotalTakes(counts, paths - {taken}, owner, symbol, path);
      TotalTakes(counts, paths - {path}, owner, symbol, taken);
      assert paths - {taken} - {path} == paths - {path} - {taken};
    }
  }

  lemma {:induction false} TotalOfSame(a: Counts, b: Counts, paths: set<string>, owner: string, symbol: string)
    requires forall path :: path in paths ==> a[Key(path, owner, symbol)] == b[Key(path, owner, symbol)]
    ensures Total(a, paths, owner, symbol) == Total(b, paths, owner, symbol)
    decreases |paths|
  {
    if paths != {} {
      var path :| path in paths;
      TotalTakes(a, paths, owner, symbol, path);
      TotalTakes(b, paths, owner, symbol, path);
      TotalOfSame(a, b, paths - {path}, owner, symbol);
    }
  }

  lemma {:induction false} ImageMember<A, B>(m: multiset<A>, f: A -> B, y: B)
    requires y in Image(m, f)
    ensures exists x :: x in m && f(x) == y
    decreases |m|
  {
    var x := Pick(m);
    if f(x) != y {
      ImageMember(m - multiset{x}, f, y);
      var other :| other in m - multiset{x} && f(other) == y;
      assert other in m;
    }
  }

  /** Paths that arrive at the key's own, among them every one with a count. */
  ghost predicate Feeds(counts: Counts, renames: map<string, string>, key: Key, paths: set<string>) {
    && (forall path :: path in paths ==> Arrives(renames, path, key.path))
    && forall path :: Arrives(renames, path, key.path) && Key(path, key.owner, key.symbol) in counts ==> path in paths
  }

  lemma CameFrom(counts: Counts, renames: map<string, string>, key: Key)
    requires key in Relocated(counts, renames)
    ensures exists path :: Arrives(renames, path, key.path) && Key(path, key.owner, key.symbol) in counts
  {
    var move := (from: Key) => Moved(renames, from);
    ImageMember(counts, move, key);
    var from :| from in counts && move(from) == key;
    assert Arrives(renames, from.path, key.path) && from == Key(from.path, key.owner, key.symbol);
  }

  lemma RelocatedSplit(counts: Counts, renames: map<string, string>, key: Key, path: string)
    requires Arrives(renames, path, key.path)
    ensures var from := Key(path, key.owner, key.symbol);
            Relocated(counts, renames)[key] == counts[from] + Relocated(counts[from := 0], renames)[key]
  {
    var from := Key(path, key.owner, key.symbol);
    assert Moved(renames, from) == key;
    ImageAddAll(counts, (other: Key) => Moved(renames, other), from);
  }

  lemma FeedsRest(counts: Counts, renames: map<string, string>, key: Key, paths: set<string>, path: string)
    requires Feeds(counts, renames, key, paths) && path in paths
    ensures Feeds(counts[Key(path, key.owner, key.symbol) := 0], renames, key, paths - {path})
  {
  }

  lemma {:induction false} RelocatedTotal(counts: Counts, renames: map<string, string>, key: Key, paths: set<string>)
    requires Feeds(counts, renames, key, paths)
    ensures Relocated(counts, renames)[key] == Total(counts, paths, key.owner, key.symbol)
    decreases |paths|
  {
    if paths == {} {
      if key in Relocated(counts, renames) {
        CameFrom(counts, renames, key);
      }
    } else {
      var path :| path in paths;
      var less := counts[Key(path, key.owner, key.symbol) := 0];
      RelocatedSplit(counts, renames, key, path);
      FeedsRest(counts, renames, key, paths, path);
      RelocatedTotal(less, renames, key, paths - {path});
      TotalTakes(counts, paths, key.owner, key.symbol, path);
      TotalOfSame(counts, less, paths - {path}, key.owner, key.symbol);
    }
  }

  /** `relocated` has, for every consumer and authority, the uses of that authority by exactly the consumers
      that are now at that path: those renamed to it, and the one already there if it was not renamed away. */
  ghost predicate IsRelocated(counts: Counts, renames: map<string, string>, relocated: Counts) {
    forall key: Key ::
      relocated[key] == Total(counts, ArrivingPaths(counts, renames, key.path), key.owner, key.symbol)
  }

  lemma RelocatedExactly(counts: Counts, renames: map<string, string>, relocated: Counts)
    ensures relocated == Relocated(counts, renames) <==> IsRelocated(counts, renames, relocated)
  {
    forall key: Key
      ensures Relocated(counts, renames)[key]
           == Total(counts, ArrivingPaths(counts, renames, key.path), key.owner, key.symbol)
    {
      RelocatedTotal(counts, renames, key, ArrivingPaths(counts, renames, key.path));
    }
    if IsRelocated(counts, renames, relocated) {
      assert forall key: Key :: relocated[key] == Relocated(counts, renames)[key];
    }
  }

  // ---- ratchet ----

  /** The keys `ratchet` reports, each once. */
  function Grown(current: Counts, baseline: Counts): set<Key> {
    set key | key in current && current[key] > baseline[key]
  }

  lemma GrownIsEmptyWithin(current: Counts, baseline: Counts)
    ensures Grown(current, baseline) == {} <==> current <= baseline
  {
    if Grown(current, baseline) == {} {
      forall key
        ensures current[key] <= baseline[key]
      {
        assert key !in Grown(current, baseline);
      }
    }
  }

  // ---- the manifest ----

  datatype Shape = Shape(bases: seq<string>, members: seq<string>, retired: bool)
  datatype Manifest = Manifest(seed: string, shapes: map<string, Option<Shape>>)

  /** `manifest_ratchet` finds nothing for this authority. */
  predicate ShapeHolds(now: Option<Shape>, before: Option<Shape>) {
    if before.None? && now.None? then true
    else
      && now.Some? && before.Some?
      && now.value.bases == before.value.bases && now.value.members == before.value.members
      && (before.value.retired ==> now.value.retired)
  }

  function ManifestErrors(now: Manifest, before: Manifest): set<string> {
    (if now.seed != before.seed then {"seed_commit"} else {})
    + (set name | name in before.shapes && (name !in now.shapes || !ShapeHolds(now.shapes[name], before.shapes[name])))
  }

  ghost predicate Preserves(now: Manifest, before: Manifest) {
    && now.seed == before.seed
    && forall name :: name in before.shapes ==> name in now.shapes && Kept(now.shapes[name], before.shapes[name])
  }

  /** The entry has no shape and had none, or has the bases and members it had and is retired if it was. */
  ghost predicate Kept(now: Option<Shape>, before: Option<Shape>) {
    match (now, before)
    case (None, None) => true
    case (Some(n), Some(b)) => n.bases == b.bases && n.members == b.members && !(b.retired && !n.retired)
    case _ => false
  }

  lemma NoManifestErrors(now: Manifest, before: Manifest)
    ensures ManifestErrors(now, before) == {} <==> Preserves(now, before)
  {
    if ManifestErrors(now, before) == {} {
      forall name | name in before.shapes
        ensures name in now.shapes && Kept(now.shapes[name], before.shapes[name])
      {
        assert name !in ManifestErrors(now, before);
      }
      assert now.seed != before.seed ==> "seed_commit" in ManifestErrors(now, before);
    }
  }

  /** `retirement_manifest`: an authority whose class is gone retires. */
  function Retire(manifest: Manifest, definitions: set<string>): Manifest {
    manifest.(shapes := map name | name in manifest.shapes ::
      var shape := manifest.shapes[name];
      if shape.Some? && name !in definitions then Some(shape.value.(retired := true)) else shape)
  }

  /** Retiring changes one thing: an authority with a shape is retired afterwards exactly if it was before or
      its class is gone. */
  lemma RetireExactly(manifest: Manifest, definitions: set<string>, name: string)
    ensures var after := Retire(manifest, definitions);
            && after.seed == manifest.seed && (name in after.shapes <==> name in manifest.shapes)
            && (name in manifest.shapes ==>
                  var was, now := manifest.shapes[name], after.shapes[name];
                  && now.Some? == was.Some?
                  && (was.Some? ==>
                        && now.value.bases == was.value.bases && now.value.members == was.value.members
                        && (now.value.retired <==> was.value.retired || name !in definitions)))
  {
  }

  lemma RetirePreserves(manifest: Manifest, definitions: set<string>, before: Manifest)
    requires Preserves(manifest, before)
    ensures Preserves(Retire(manifest, definitions), before)
  {
  }

  // ---- main ----

  /** What one checked tree holds, and what its merge base held. */
  datatype Tree = Tree(
    scanErrors: seq<string>,
    counts: Counts,
    definitions: set<string>,
    baseline: Counts,
    manifest: Manifest)

  datatype Base = Base(renames: map<string, string>, baseline: Option<Counts>, manifest: Option<Manifest>)

  /** The baseline and manifest in force once a change is in. */
  datatype Gate = Gate(baseline: Counts, manifest: Manifest)

  /** `main`, against a merge base when one is named; `kept` is what the files hold afterwards. */
  method CheckTree(tree: Tree, base: Option<Base>, write: bool) returns (exit: nat, kept: Gate)
    ensures exit != 0 ==> kept == Gate(tree.baseline, tree.manifest)
    ensures exit == 0 <==> Accepts(tree, base, write)
    ensures exit == 0 ==> kept == Gate(tree.counts, Retire(tree.manifest, tree.definitions))
  {
    kept := Gate(tree.baseline, tree.manifest);
    var renames := if base.Some? then base.value.renames else map[];
    var allowance := RelocatedCounts(tree.baseline, renames);
    GrownIsEmptyWithin(tree.counts, allowance);
    var failed := tree.scanErrors != [] || Grown(tree.counts, allowance) != {};
    if base.Some? && base.value.baseline.Some? {
      var original := RelocatedCounts(base.value.baseline.value, renames);
      GrownIsEmptyWithin(allowance, original);
      failed := failed || Grown(allowance, original) != {};
    }
    if base.Some? && base.value.manifest.Some? {
      NoManifestErrors(tree.manifest, base.value.manifest.value);
      failed := failed || ManifestErrors(tree.manifest, base.value.manifest.value) != {};
    }
    if failed {
      return 1, kept;
    }
    var retired := Retire(tree.manifest, tree.definitions);
    if write {
      kept := Gate(tree.counts, retired);
    } else if retired != tree.manifest {
      return 1, kept;
    } else if tree.counts != tree.baseline {
      return 1, kept;
    }
    return 0, kept;
  }

  /** The changes `main` lets through. */
  ghost predicate Accepts(tree: Tree, base: Option<Base>, write: bool) {
    var renames := if base.Some? then base.value.renames else map[];
    var allowance := Relocated(tree.baseline, renames);
    && tree.scanErrors == [] && tree.counts <= allowance
    && (base.Some? && base.value.baseline.Some? ==> allowance <= Relocated(base.value.baseline.value, renames))
    && (base.Some? && base.value.manifest.Some? ==> Preserves(tree.manifest, base.value.manifest.value))
    && (!write ==> Retire(tree.manifest, tree.definitions) == tree.manifest && tree.counts == tree.baseline)
  }

  /** No destination of a rename was itself renamed: its file is there, and a renamed one's is gone. */
  predicate Direct(renames: map<string, string>) {
    forall path :: path in renames ==> renames[path] !in renames
  }

  lemma ShapesHold(manifest: Manifest)
    ensures Preserves(manifest, manifest)
  {
  }

  /** A change that only renames consumers is accepted: the gate writes the moved counts as its baseline, and
      with that baseline in place the plain check passes too.  `consumer_renames` gives only direct renames. */
  lemma RenamingIsAccepted(baseline: Counts, manifest: Manifest, definitions: set<string>, counts: Counts,
                           renames: map<string, string>)
    requires IsRelocated(baseline, renames, counts)
    ensures var base := Some(Base(renames, Some(baseline), Some(manifest)));
            && Accepts(Tree([], counts, definitions, baseline, manifest), base, true)
            && (Direct(renames) && Retire(manifest, definitions) == manifest ==>
                  Accepts(Tree([], counts, definitions, counts, manifest), base, false))
  {
    RelocatedExactly(baseline, renames, counts);
    if Direct(renames) {
      RelocatingTwice(baseline, renames);
    }
    ShapesHold(manifest);
  }

  lemma RelocatingTwice(counts: Counts, renames: map<string, string>)
    requires Direct(renames)
    ensures Relocated(Relocated(counts, renames), renames) == Relocated(counts, renames)
  {
    var move := (key: Key) => Moved(renames, key);
    ImageComposes(counts, move, move, move);
  }

  /** One accepted change only ever lowers the use of every authority below its base's allowance. */
  lemma AcceptedChangeShrinks(tree: Tree, base: Base, write: bool)
    requires Accepts(tree, Some(base), write) && base.baseline.Some?
    ensures Usage(tree.counts) <= Usage(base.baseline.value) && |tree.counts| <= |base.baseline.value|
  {
    var allowance, original := Relocated(tree.baseline, base.renames), Relocated(base.baseline.value, base.renames);
    ImageIsMonotone(tree.counts, original, key => Authority(key));
    RelocationConserves(base.baseline.value, base.renames);
    SizeIsMonotone(tree.counts, original);
  }

  lemma SizeIsMonotone(m: Counts, n: Counts)
    requires m <= n
    ensures |m| <= |n|
  {
    assert n == m + (n - m);
  }

  /** A history of accepted changes, each checked against the gate the one before it left. */
  ghost predicate History(gates: seq<Gate>) {
    && gates != []
    && forall i :: 0 < i < |gates| ==> Change(gates[i-1], gates[i])
  }

  ghost predicate Change(before: Gate, after: Gate) {
    exists tree: Tree, renames: map<string, string>, write: bool ::
      && Accepts(tree, Some(Base(renames, Some(before.baseline), Some(before.manifest))), write)
      && after == Gate(tree.counts, Retire(tree.manifest, tree.definitions))
  }

  /** What a history keeps: no authority is used more, the total is no larger, every frozen shape is as
      it was, and no retirement is reversed. */
  ghost predicate Shrinks(before: Gate, after: Gate) {
    && Usage(after.baseline) <= Usage(before.baseline) && |after.baseline| <= |before.baseline|
    && Preserves(after.manifest, before.manifest)
  }

  lemma ChangeShrinks(before: Gate, after: Gate)
    requires Change(before, after)
    ensures Shrinks(before, after)
  {
    var tree: Tree, renames: map<string, string>, write: bool :|
      && Accepts(tree, Some(Base(renames, Some(before.baseline), Some(before.manifest))), write)
      && after == Gate(tree.counts, Retire(tree.manifest, tree.definitions));
    AcceptedChangeShrinks(tree, Base(renames, Some(before.baseline), Some(before.manifest)), write);
    RetirePreserves(tree.manifest, tree.definitions, before.manifest);
  }

  lemma ShrinksIsTransitive(a: Gate, b: Gate, c: Gate)
    requires Shrinks(a, b) && Shrinks(b, c)
    ensures Shrinks(a, c)
  {
  }

  lemma ShorterHistory(gates: seq<Gate>)
    requires History(gates) && |gates| > 1
    ensures History(gates[..|gates|-1])
  {
    var shorter := gates[..|gates|-1];
    forall i | 0 < i < |shorter|
      ensures Change(shorter[i-1], shorter[i])
    {
      assert Change(gates[i-1], gates[i]);
    }
  }

  /** Along any chain of accepted changes, whatever was renamed on the way, the gate only shrinks. */
  lemma {:induction false} HistoryOnlyShrinks(gates: seq<Gate>)
    requires History(gates)
    ensures Shrinks(gates[0], gates[|gates|-1])
    decreases |gates|
  {
    if |gates| > 1 {
      var n := |gates| - 1;
      ShorterHistory(gates);
      HistoryOnlyShrinks(gates[..n]);
      ChangeShrinks(gates[n-1], gates[n]);
      ShrinksIsTransitive(gates[0], gates[n-1], gates[n]);
    }
  }
}
