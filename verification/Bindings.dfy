/** Alias binding to a bounded fixed point (`bind` and `assignment_bindings`,
    scripts/check_contract_sot.py).  How an expression evaluates to names is an arbitrary function. */
module Bindings {
  import opened Common
  import opened Resolve

  const MAX_TARGETS := 64
  const MAX_PASSES := 64

  // ---- sorted(...)[:64] ----

  /** Python's `<` on strings. */
  predicate Less(a: string, b: string) {
    if b == [] then false
    else if a == [] then true
    else a[0] < b[0] || (a[0] == b[0] && Less(a[1..], b[1..]))
  }

  /** The strings agree before position `k`, where `a` ends or has the smaller character. */
  predicate SmallerAt(a: string, b: string, k: nat) {
    && k <= |a| && k < |b| && a[..k] == b[..k]
    && (k < |a| ==> a[k] < b[k])
  }

  lemma {:induction false} LessExactly(a: string, b: string)
    ensures Less(a, b) <==> exists k: nat :: SmallerAt(a, b, k)
  {
    if a == [] && b != [] {
      assert SmallerAt(a, b, 0);
    } else if a != [] && b != [] && a[0] == b[0] {
      LessExactly(a[1..], b[1..]);
      assert a == [a[0]] + a[1..] && b == [b[0]] + b[1..];
      if k: nat :| SmallerAt(a[1..], b[1..], k) {
        SmallerFurther(a, b, k);
      }
      if k: nat :| SmallerAt(a, b, k) {
        assert k > 0;
        SmallerFurther(a, b, k - 1);
      }
    } else if a != [] && b != [] && a[0] < b[0] {
      assert SmallerAt(a, b, 0);
    } else {
      forall k: nat
        ensures !SmallerAt(a, b, k)
      {
        assert 0 < k <= |a| && k <= |b| ==> a[..k][0] == a[0] && b[..k][0] == b[0];
      }
    }
  }

  lemma SmallerFurther(a: string, b: string, k: nat)
    requires a != [] && b != [] && a[0] == b[0]
    ensures SmallerAt(a[1..], b[1..], k) <==> SmallerAt(a, b, k + 1)
  {
    if k < |a| && k < |b| {
      assert a[..k+1] == [a[0]] + a[1..][..k] && b[..k+1] == [b[0]] + b[1..][..k];
      if a[..k+1] == b[..k+1] {
        assert a[1..][..k] == a[..k+1][1..] && b[1..][..k] == b[..k+1][1..];
      }
    }
  }

  lemma {:induction false} LessIsTotal(a: string, b: string)
    ensures (Less(a, b) && a != b && !Less(b, a)) || (a == b && !Less(a, b)) || (Less(b, a) && a != b && !Less(a, b))
  {
    if a != [] && b != [] && a[0] == b[0] {
      LessIsTotal(a[1..], b[1..]);
      assert a == [a[0]] + a[1..] && b == [b[0]] + b[1..];
    }
  }

  lemma {:induction false} LessIsTransitive(a: string, b: string, c: string)
    requires Less(a, b) && Less(b, c)
    ensures Less(a, c)
  {
    if a != [] && a[0] == b[0] == c[0] {
      LessIsTransitive(a[1..], b[1..], c[1..]);
    }
  }

  predicate IsLeast(names: set<string>, least: string) {
    least in names && forall x :: x in names ==> x == least || Less(least, x)
  }

  lemma {:induction false} LeastExists(names: set<string>) returns (least: string)
    requires names != {}
    ensures IsLeast(names, least)
    decreases |names|
  {
    var first :| first in names;
    var rest := names - {first};
    assert names == rest + {first};
    if rest == {} {
      return first;
    }
    var other := LeastExists(rest);
    LessIsTotal(first, other);
    if Less(other, first) {
      return other;
    }
    forall x | x in rest
      ensures Less(first, x)
    {
      if x != other { LessIsTransitive(first, other, x); }
    }
    return first;
  }

  lemma LeastIsUnique(names: set<string>, a: string, b: string)
    requires IsLeast(names, a) && IsLeast(names, b)
    ensures a == b
  {
    LessIsTotal(a, b);
  }

  function Least(names: set<string>): (least: string)
    requires names != {}
    ensures IsLeast(names, least)
  {
    assert exists x :: IsLeast(names, x) by { var x := LeastExists(names); }
    assert forall a, b :: IsLeast(names, a) && IsLeast(names, b) ==> a == b by {
      forall a, b | IsLeast(names, a) && IsLeast(names, b) ensures a == b { LeastIsUnique(names, a, b); }
    }
    var x :| x in names && IsLeast(names, x);
    x
  }

  /** The first `count` names in sorted order. */
  function Smallest(names: set<string>, count: nat): (first: set<string>)
    ensures first <= names
    ensures |first| == if |names| < count then |names| else count
    ensures forall x, y :: x in first && y in names - first ==> Less(x, y)
    decreases count
  {
    if count == 0 || names == {} then {}
    else
      var least := Least(names);
      {least} + Smallest(names - {least}, count - 1)
  }

  // ---- bind ----

  predicate Short(name: string) {
    |name| <= MAX_LENGTH
  }

  /** The set `bind` stores for a union of previous and new targets. */
  function Bounded(combined: set<string>): set<string> {
    if |combined| > MAX_TARGETS || exists x :: x in combined && !Short(x) then
      Smallest((set x | x in combined && Short(x)), MAX_TARGETS) + {AMBIGUOUS}
    else combined
  }

  /** A stored set is small, holds only short names, keeps the marker once it is there, and either is
      the whole union or carries the marker. */
  lemma BoundedIsFlagged(combined: set<string>)
    ensures |Bounded(combined)| <= MAX_TARGETS + 1
    ensures forall x :: x in Bounded(combined) ==> Short(x)
    ensures AMBIGUOUS in combined ==> AMBIGUOUS in Bounded(combined)
    ensures AMBIGUOUS !in Bounded(combined) ==> Bounded(combined) == combined
    ensures Bounded(combined) <= combined + {AMBIGUOUS}
    ensures combined != {} ==> Bounded(combined) != {}
  {
    assert Short(AMBIGUOUS);
  }

  /** A stored set carries the marker exactly if the union does, holds more than 64 names, or holds one
      longer than 512 characters. */
  lemma MarkedExactly(combined: set<string>)
    ensures AMBIGUOUS in Bounded(combined) <==>
              AMBIGUOUS in combined || |combined| > 64 || exists x :: x in combined && |x| > 512
  {
    assert forall x :: x in combined ==> (Short(x) <==> |x| <= 512);
  }

  function Binding(names: Names, local: string): set<string> {
    if local in names then names[local] else {}
  }

  predicate Flagged(names: Names) {
    exists local :: local in names && AMBIGUOUS in names[local]
  }

  /** What `source_counts` reports: one error for each local whose binding carries the marker. */
  function OverflowErrors(names: Names): (locals: set<string>)
    ensures locals != {} <==> Flagged(names)
  {
    var locals := set local | local in names && AMBIGUOUS in names[local];
    assert Flagged(names) ==> locals != {} by {
      if Flagged(names) {
        var local :| local in names && AMBIGUOUS in names[local];
        assert local in locals;
      }
    }
    locals
  }

  datatype Assignment<E> = Assignment(local: string, value: E, shadowed: set<string>)
  type Evaluator<!E> = (E, Names) -> set<string>

  function Visible(names: Names, shadowed: set<string>): Names {
    map local | local in names && local !in shadowed :: names[local]
  }

  /** An alias is visible exactly if it is bound and not shadowed, and then with its whole binding. */
  lemma VisibleExactly(names: Names, shadowed: set<string>, local: string)
    ensures Binding(Visible(names, shadowed), local) == if local in shadowed then {} else Binding(names, local)
    ensures local in Visible(names, shadowed) <==> local in names && local !in shadowed
  {
  }

  function TargetsOf<E>(names: Names, a: Assignment<E>, evaluate: Evaluator<E>): set<string> {
    evaluate(a.value, Visible(names, a.shadowed))
  }

  /** An assignment's targets depend on the names it does not shadow, and on those alone. */
  lemma TargetsAreUnshadowed<E>(a: Names, b: Names, assignment: Assignment<E>, evaluate: Evaluator<E>)
    requires forall local :: local !in assignment.shadowed ==>
               (local in a <==> local in b) && (local in a ==> a[local] == b[local])
    ensures TargetsOf(a, assignment, evaluate) == TargetsOf(b, assignment, evaluate)
    ensures assignment.shadowed !! a.Keys ==> TargetsOf(a, assignment, evaluate) == evaluate(assignment.value, a)
  {
    assert Visible(a, assignment.shadowed) == Visible(b, assignment.shadowed);
    if assignment.shadowed !! a.Keys {
      assert Visible(a, assignment.shadowed) == a;
    }
  }

  /** An assignment that has nothing left to add to its local, or whose local is flagged. */
  predicate Settled<E>(names: Names, a: Assignment<E>, evaluate: Evaluator<E>) {
    TargetsOf(names, a, evaluate) <= Binding(names, a.local) || AMBIGUOUS in Binding(names, a.local)
  }

  /** What any sequence of binds keeps: no local and no marker is lost; a set that changed is bounded;
      and as long as nothing is flagged, no name is lost either. */
  ghost predicate Extends(before: Names, after: Names) {
    && before.Keys <= after.Keys
    && (forall l :: l in before && AMBIGUOUS in before[l] ==> AMBIGUOUS in after[l])
    && (forall l :: l in after && Binding(before, l) != after[l] ==>
          |after[l]| <= MAX_TARGETS + 1 && forall x :: x in after[l] ==> Short(x))
    && (!Flagged(after) ==> forall l :: l in before ==> before[l] <= after[l])
  }

  function Bound(names: Names, local: string, targets: set<string>): Names {
    if targets == {} then names else names[local := Bounded(Binding(names, local) + targets)]
  }

  lemma BindExtends(names: Names, local: string, targets: set<string>)
    ensures Extends(names, Bound(names, local, targets))
  {
    BoundedIsFlagged(Binding(names, local) + targets);
    var after := Bound(names, local, targets);
    if targets != {} && AMBIGUOUS in after[local] {
      assert Flagged(after);
    }
  }

  lemma ExtendsIsTransitive(a: Names, b: Names, c: Names)
    requires Extends(a, b) && Extends(b, c)
    ensures Extends(a, c)
  {
    if Flagged(b) {
      var l :| l in b && AMBIGUOUS in b[l];
      assert l in c && AMBIGUOUS in c[l];
    }
    forall l | l in c && Binding(a, l) != c[l]
      ensures |c[l]| <= MAX_TARGETS + 1 && forall x :: x in c[l] ==> Short(x)
    {
      if Binding(b, l) == c[l] && l in b {
        assert b[l] == c[l];
      } else if l !in b {
        assert l !in a;
      }
    }
  }

  /** A bind that changed nothing leaves its assignment settled. */
  lemma UnchangedIsSettled<E>(names: Names, a: Assignment<E>, evaluate: Evaluator<E>)
    requires Bound(names, a.local, TargetsOf(names, a, evaluate)) == names
    ensures Settled(names, a, evaluate)
  {
    var targets := TargetsOf(names, a, evaluate);
    if targets != {} {
      BoundedIsFlagged(Binding(names, a.local) + targets);
      assert names[a.local] == Bounded(Binding(names, a.local) + targets);
    }
  }

  lemma Rebinding(names: Names, local: string, stored: set<string>)
    requires stored != {}
    ensures names[local := stored] == names <==> stored == Binding(names, local)
  {
  }

  /** The alias dictionary both functions change in place. */
  class AliasTable {
    var names: Names

    constructor (initial: Names)
      ensures names == initial
    {
      names := initial;
    }

    method Bind(local: string, targets: set<string>) returns (changed: bool)
      modifies this
      ensures names == Bound(old(names), local, targets)
      ensures changed <==> names != old(names)
    {
      if targets == {} {
        return false;
      }
      var previous := Binding(names, local);
      var combined := previous + targets;
      BoundedIsFlagged(combined);
      if |combined| > MAX_TARGETS || exists x :: x in combined && !Short(x) {
        var short := set x | x in combined && Short(x);
        combined := Smallest(short, MAX_TARGETS) + {AMBIGUOUS};
      }
      assert combined == Bounded(previous + targets);
      names := names[local := combined];
      changed := combined != previous;
      Rebinding(old(names), local, combined);
    }

    /** One pass over the assignments; `changed` says whether any bind changed its local. */
    method BindAll<E>(assignments: seq<Assignment<E>>, evaluate: Evaluator<E>) returns (changed: bool)
      modifies this
      ensures names == Pass(old(names), assignments, evaluate) && Extends(old(names), names)
      ensures changed <==> Grows(old(names), assignments, evaluate)
      ensures !changed ==> names == old(names) && AllSettled(names, assignments, evaluate)
    {
      changed := false;
      for i := 0 to |assignments|
        invariant names == Pass(old(names), assignments[..i], evaluate) && Extends(old(names), names)
        invariant changed <==> Grows(old(names), assignments[..i], evaluate)
        invariant !changed ==> names == old(names) && AllSettled(names, assignments[..i], evaluate)
      {
        ghost var before := names;
        BindStep(old(names), names, assignments, evaluate, i);
        var grew := Bind(assignments[i].local, TargetsOf(names, assignments[i], evaluate));
        if !changed && !grew {
          SettledStep(names, assignments, evaluate, i);
        }
        changed := changed || grew;
      }
      assert assignments[..|assignments|] == assignments;
    }

    /** `assignment_bindings`: on return either every assignment is settled, or an error will be reported;
        and the table is marked only after every allowed pass still changed it. */
    method AssignmentBindings<E>(assignments: seq<Assignment<E>>, evaluate: Evaluator<E>)
      modifies this
      ensures Extends(old(names), names)
      ensures Flagged(names) || forall i :: 0 <= i < |assignments| ==>
                TargetsOf(names, assignments[i], evaluate) <= Binding(names, assignments[i].local)
      ensures Iterated(old(names), names, assignments, evaluate)
    {
      for pass := 0 to PassLimit(assignments)
        invariant Reached(old(names), names, assignments, evaluate, pass)
      {
        ghost var before := names;
        var changed := BindAll(assignments, evaluate);
        if !changed {
          ReachedFixedPoint(old(names), names, assignments, evaluate, pass);
          return;
        }
        ReachedStep(old(names), before, assignments, evaluate, pass);
      }
      ReachedLimit(old(names), names, assignments, evaluate);
      if assignments != [] {
        names := names[AMBIGUOUS := {AMBIGUOUS}];
      }
    }
  }

  /** After `n` passes, all of which changed something. */
  ghost predicate Reached<E>(before: Names, names: Names, assignments: seq<Assignment<E>>, evaluate: Evaluator<E>,
                             n: nat)
  {
    && Extends(before, names) && names == Passes(before, assignments, evaluate, n)
    && AllChange(before, assignments, evaluate, n)
  }

  ghost predicate AllChange<E>(before: Names, assignments: seq<Assignment<E>>, evaluate: Evaluator<E>, n: nat) {
    forall k :: 0 <= k < n ==> Changes(before, assignments, evaluate, k)
  }

  lemma OneMoreChanges<E>(before: Names, assignments: seq<Assignment<E>>, evaluate: Evaluator<E>, n: nat)
    requires AllChange(before, assignments, evaluate, n) && Changes(before, assignments, evaluate, n)
    ensures AllChange(before, assignments, evaluate, n + 1)
  {
  }

  lemma ReachedStep<E>(before: Names, names: Names, assignments: seq<Assignment<E>>, evaluate: Evaluator<E>, n: nat)
    requires Reached(before, names, assignments, evaluate, n)
    requires Grows(names, assignments, evaluate) && Extends(names, Pass(names, assignments, evaluate))
    ensures Reached(before, Pass(names, assignments, evaluate), assignments, evaluate, n + 1)
  {
    ExtendsIsTransitive(before, names, Pass(names, assignments, evaluate));
    OneMoreChanges(before, assignments, evaluate, n);
  }

  lemma ReachedFixedPoint<E>(before: Names, names: Names, assignments: seq<Assignment<E>>, evaluate: Evaluator<E>,
                             n: nat)
    requires Reached(before, names, assignments, evaluate, n) && n < PassLimit(assignments)
    requires !Grows(names, assignments, evaluate) && AllSettled(names, assignments, evaluate)
    ensures Extends(before, names) && Iterated(before, names, assignments, evaluate)
    ensures Flagged(names) || forall i :: 0 <= i < |assignments| ==>
              TargetsOf(names, assignments[i], evaluate) <= Binding(names, assignments[i].local)
  {
    SettledOrFlagged(names, assignments, evaluate);
    assert !Changes(before, assignments, evaluate, n);
  }

  lemma ReachedLimit<E>(before: Names, names: Names, assignments: seq<Assignment<E>>, evaluate: Evaluator<E>)
    requires Reached(before, names, assignments, evaluate, PassLimit(assignments))
    ensures var marked := names[AMBIGUOUS := {AMBIGUOUS}];
            && assignments != [] && Extends(before, marked) && Flagged(marked)
            && Iterated(before, marked, assignments, evaluate)
  {
    assert Changes(before, assignments, evaluate, 0);
    MarkExtends(names);
    ExtendsIsTransitive(before, names, names[AMBIGUOUS := {AMBIGUOUS}]);
  }

  ghost predicate AllSettled<E>(names: Names, assignments: seq<Assignment<E>>, evaluate: Evaluator<E>) {
    forall i :: 0 <= i < |assignments| ==> Settled(names, assignments[i], evaluate)
  }

  lemma SettledOrFlagged<E>(names: Names, assignments: seq<Assignment<E>>, evaluate: Evaluator<E>)
    requires AllSettled(names, assignments, evaluate)
    ensures Flagged(names) || forall i :: 0 <= i < |assignments| ==>
              TargetsOf(names, assignments[i], evaluate) <= Binding(names, assignments[i].local)
  {
    assert forall i :: 0 <= i < |assignments| && AMBIGUOUS in Binding(names, assignments[i].local) ==> Flagged(names);
  }

  /** What binding assignment `i` adds to a pass that has come that far. */
  lemma BindStep<E>(start: Names, names: Names, assignments: seq<Assignment<E>>, evaluate: Evaluator<E>, i: nat)
    requires i < |assignments| && names == Pass(start, assignments[..i], evaluate) && Extends(start, names)
    ensures var a := assignments[i];
            var after := Bound(names, a.local, TargetsOf(names, a, evaluate));
            && after == Pass(start, assignments[..i+1], evaluate) && Extends(start, after)
            && (Grows(start, assignments[..i+1], evaluate) <==>
                  Grows(start, assignments[..i], evaluate) || after != names)
  {
    var a := assignments[i];
    var after := Bound(names, a.local, TargetsOf(names, a, evaluate));
    BindExtends(names, a.local, TargetsOf(names, a, evaluate));
    ExtendsIsTransitive(start, names, after);
    PassStep(start, assignments, evaluate, i);
    GrowsStep(start, assignments, evaluate, i);
  }

  lemma SettledStep<E>(names: Names, assignments: seq<Assignment<E>>, evaluate: Evaluator<E>, i: nat)
    requires i < |assignments| && AllSettled(names, assignments[..i], evaluate)
    requires Bound(names, assignments[i].local, TargetsOf(names, assignments[i], evaluate)) == names
    ensures AllSettled(names, assignments[..i+1], evaluate)
  {
    UnchangedIsSettled(names, assignments[i], evaluate);
  }

  lemma GrowsStep<E>(names: Names, assignments: seq<Assignment<E>>, evaluate: Evaluator<E>, i: nat)
    requires i < |assignments|
    ensures Grows(names, assignments[..i+1], evaluate) <==>
              || Grows(names, assignments[..i], evaluate)
              || Pass(names, assignments[..i+1], evaluate) != Pass(names, assignments[..i], evaluate)
  {
    assert assignments[..i+1][..i] == assignments[..i];
  }

  function PassLimit<E>(assignments: seq<Assignment<E>>): (limit: nat)
    ensures limit <= 64 && limit <= |assignments| + 1 && (limit == 64 || limit == |assignments| + 1)
  {
    if |assignments| + 1 < MAX_PASSES then |assignments| + 1 else MAX_PASSES
  }

  /** One pass: bind every assignment in order, each seeing what the ones before it bound. */
  function Pass<E>(names: Names, assignments: seq<Assignment<E>>, evaluate: Evaluator<E>): Names {
    if assignments == [] then names
    else
      var before, a := Pass(names, assignments[..|assignments|-1], evaluate), assignments[|assignments|-1];
      Bound(before, a.local, TargetsOf(before, a, evaluate))
  }

  function Passes<E>(names: Names, assignments: seq<Assignment<E>>, evaluate: Evaluator<E>, n: nat): Names {
    if n == 0 then names else Pass(Passes(names, assignments, evaluate, n - 1), assignments, evaluate)
  }

  /** Some bind of the pass changes its local. */
  predicate Grows<E>(names: Names, assignments: seq<Assignment<E>>, evaluate: Evaluator<E>) {
    if assignments == [] then false
    else
      var before := assignments[..|assignments|-1];
      Grows(names, before, evaluate) || Pass(names, assignments, evaluate) != Pass(names, before, evaluate)
  }

  predicate Changes<E>(names: Names, assignments: seq<Assignment<E>>, evaluate: Evaluator<E>, n: nat) {
    Grows(Passes(names, assignments, evaluate, n), assignments, evaluate)
  }

  /** `after` is the first pass of `before` that changes nothing, or, when all allowed passes change
      something, what they leave with the marker added. */
  ghost predicate Iterated<E>(before: Names, after: Names, assignments: seq<Assignment<E>>, evaluate: Evaluator<E>) {
    var limit := PassLimit(assignments);
    || (exists n ::
          && 0 <= n < limit && after == Passes(before, assignments, evaluate, n)
          && !Changes(before, assignments, evaluate, n))
    || (&& after == Passes(before, assignments, evaluate, limit)[AMBIGUOUS := {AMBIGUOUS}]
        && forall n :: 0 <= n < limit ==> Changes(before, assignments, evaluate, n))
  }

  lemma PassStep<E>(names: Names, assignments: seq<Assignment<E>>, evaluate: Evaluator<E>, i: nat)
    requires i < |assignments|
    ensures var before, a := Pass(names, assignments[..i], evaluate), assignments[i];
            Pass(names, assignments[..i+1], evaluate) == Bound(before, a.local, TargetsOf(before, a, evaluate))
  {
    assert assignments[..i+1][..i] == assignments[..i];
  }

  lemma MarkExtends(names: Names)
    ensures Extends(names, names[AMBIGUOUS := {AMBIGUOUS}]) && Flagged(names[AMBIGUOUS := {AMBIGUOUS}])
  {
    var after := names[AMBIGUOUS := {AMBIGUOUS}];
    assert AMBIGUOUS in after[AMBIGUOUS];
    assert Flagged(after);
    assert Short(AMBIGUOUS);
  }

  // ---- what an unflagged table is ----

  /** A bind without limits. */
  function FreelyBound(names: Names, local: string, targets: set<string>): Names {
    if targets == {} then names else names[local := Binding(names, local) + targets]
  }

  function FreePass<E>(names: Names, assignments: seq<Assignment<E>>, evaluate: Evaluator<E>): Names {
    if assignments == [] then names
    else
      var before, a := FreePass(names, assignments[..|assignments|-1], evaluate), assignments[|assignments|-1];
      FreelyBound(before, a.local, TargetsOf(before, a, evaluate))
  }

  function FreePasses<E>(names: Names, assignments: seq<Assignment<E>>, evaluate: Evaluator<E>, n: nat): Names {
    if n == 0 then names else FreePass(FreePasses(names, assignments, evaluate, n - 1), assignments, evaluate)
  }

  lemma UnflaggedBindIsFree(names: Names, local: string, targets: set<string>)
    requires !Flagged(Bound(names, local, targets))
    ensures Bound(names, local, targets) == FreelyBound(names, local, targets) && !Flagged(names)
  {
    BindExtends(names, local, targets);
    if targets != {} {
      BoundedIsFlagged(Binding(names, local) + targets);
      assert local in Bound(names, local, targets);
    }
  }

  lemma {:induction false} UnflaggedPassIsFree<E>(names: Names, assignments: seq<Assignment<E>>, evaluate: Evaluator<E>)
    requires !Flagged(Pass(names, assignments, evaluate))
    ensures Pass(names, assignments, evaluate) == FreePass(names, assignments, evaluate) && !Flagged(names)
  {
    if assignments != [] {
      var before, a := assignments[..|assignments|-1], assignments[|assignments|-1];
      var names' := Pass(names, before, evaluate);
      UnflaggedBindIsFree(names', a.local, TargetsOf(names', a, evaluate));
      UnflaggedPassIsFree(names, before, evaluate);
    }
  }

  lemma {:induction false} UnflaggedPassesAreFree<E>(names: Names, assignments: seq<Assignment<E>>,
                                                     evaluate: Evaluator<E>, n: nat)
    requires !Flagged(Passes(names, assignments, evaluate, n))
    ensures Passes(names, assignments, evaluate, n) == FreePasses(names, assignments, evaluate, n)
  {
    if n > 0 {
      UnflaggedPassIsFree(Passes(names, assignments, evaluate, n - 1), assignments, evaluate);
      UnflaggedPassesAreFree(names, assignments, evaluate, n - 1);
    }
  }

  lemma {:induction false} UnchangedPass<E>(names: Names, assignments: seq<Assignment<E>>, evaluate: Evaluator<E>)
    requires !Grows(names, assignments, evaluate)
    ensures Pass(names, assignments, evaluate) == names
  {
    if assignments != [] {
      UnchangedPass(names, assignments[..|assignments|-1], evaluate);
    }
  }

  /** `after` is a fixed point of unlimited binding that some number of passes reaches from `before`. */
  ghost predicate Untruncated<E>(before: Names, after: Names, assignments: seq<Assignment<E>>, evaluate: Evaluator<E>) {
    && FreePass(after, assignments, evaluate) == after
    && exists n: nat :: after == FreePasses(before, assignments, evaluate, n)
  }

  /** A table without the marker was never truncated: it is what binding without limits gives. */
  lemma UnflaggedIsUntruncated<E>(before: Names, after: Names, assignments: seq<Assignment<E>>, evaluate: Evaluator<E>)
    requires Iterated(before, after, assignments, evaluate) && !Flagged(after)
    ensures Untruncated(before, after, assignments, evaluate)
  {
    var limit := PassLimit(assignments);
    var marked := Passes(before, assignments, evaluate, limit)[AMBIGUOUS := {AMBIGUOUS}];
    MarkExtends(Passes(before, assignments, evaluate, limit));
    assert after != marked;
    var n :| 0 <= n < limit && after == Passes(before, assignments, evaluate, n)
      && !Changes(before, assignments, evaluate, n);
    UnchangedPass(after, assignments, evaluate);
    UnflaggedPassIsFree(after, assignments, evaluate);
    UnflaggedPassesAreFree(before, assignments, evaluate, n);
  }

  lemma {:induction false} FixedPassesStay<E>(names: Names, assignments: seq<Assignment<E>>, evaluate: Evaluator<E>,
                                              n: nat, m: nat)
    requires n <= m
    requires var fixed := FreePasses(names, assignments, evaluate, n); FreePass(fixed, assignments, evaluate) == fixed
    ensures FreePasses(names, assignments, evaluate, m) == FreePasses(names, assignments, evaluate, n)
    decreases m
  {
    if n < m {
      FixedPassesStay(names, assignments, evaluate, n, m - 1);
    }
  }

  /** Binding without limits has at most one outcome. */
  lemma UntruncatedIsUnique<E>(before: Names, a: Names, b: Names, assignments: seq<Assignment<E>>,
                               evaluate: Evaluator<E>)
    requires Untruncated(before, a, assignments, evaluate) && Untruncated(before, b, assignments, evaluate)
    ensures a == b
  {
    var m: nat :| a == FreePasses(before, assignments, evaluate, m);
    var n: nat :| b == FreePasses(before, assignments, evaluate, n);
    if m <= n {
      FixedPassesStay(before, assignments, evaluate, m, n);
    } else {
      FixedPassesStay(before, assignments, evaluate, n, m);
    }
  }

  /** What scanning one module starts from: the names it imports, and its assignments. */
  datatype Module<E> = Module(imports: Names, assignments: seq<Assignment<E>>)

  ghost predicate FreeTables<E>(modules: map<string, Module<E>>, evaluate: Evaluator<E>, tables: Exports) {
    && tables.Keys == modules.Keys
    && forall m :: m in modules ==> Untruncated(modules[m].imports, tables[m], modules[m].assignments, evaluate)
  }

  /** The tables `bindings` leaves for every module. */
  ghost predicate ScannedTables<E>(modules: map<string, Module<E>>, evaluate: Evaluator<E>, tables: Exports) {
    && tables.Keys == modules.Keys
    && forall m :: m in modules ==> Iterated(modules[m].imports, tables[m], modules[m].assignments, evaluate)
  }

  /** The whole measurement: if no module's table and no node is flagged, nothing was cut off anywhere.
      Binding without limits has an outcome, and a node is charged with exactly the frozen authorities that
      its names, as that outcome gives them, reach through it. */
  lemma CleanMeasurementIsExact<E, N>(modules: map<string, Module<E>>, evaluate: Evaluator<E>, tables: Exports,
                                      m: string, node: N, namesOf: (N, Names) -> seq<string>,
                                      frozen: set<string>, charged: set<string>, flagged: bool)
    requires ScannedTables(modules, evaluate, tables) && m in modules
    requires Measures(GraphOf(tables, Some(frozen)), namesOf(node, tables[m]), frozen, charged, flagged)
    requires (forall other :: other in tables ==> OverflowErrors(tables[other]) == {}) && !flagged
    ensures exists free :: FreeTables(modules, evaluate, free)
    ensures forall free :: FreeTables(modules, evaluate, free) ==>
              forall owner :: owner in charged <==>
                owner in frozen && SomeReaches(GraphOf(free, Some(frozen)), namesOf(node, free[m]), owner)
  {
    forall other | other in modules
      ensures Untruncated(modules[other].imports, tables[other], modules[other].assignments, evaluate)
    {
      UnflaggedIsUntruncated(modules[other].imports, tables[other], modules[other].assignments, evaluate);
    }
    assert FreeTables(modules, evaluate, tables);
    forall free | FreeTables(modules, evaluate, free)
      ensures free == tables
    {
      forall other | other in modules
        ensures free[other] == tables[other]
      {
        UntruncatedIsUnique(modules[other].imports, free[other], tables[other], modules[other].assignments, evaluate);
      }
    }
  }
}
