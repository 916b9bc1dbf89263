/**
 Checking the publishing jobs against the dependencies between packages
 (lib/verify-ci-package-needs.py): each job must need exactly what its package depends on, and the
 dependencies must have no cycle.
 */
module CiNeeds {
  import opened Sequences

  type Package = string

  type Job = string

  type Relation = map<Package, set<Package>>

  /** Every dependency is itself a known package; relationships are built that way. */
  ghost predicate Internal(rel: Relation) {
    forall p, d :: p in rel && d in rel[p] ==> d in rel
  }

  ghost predicate IsPath(rel: Relation, w: seq<Package>) {
    forall i :: 0 <= i < |w| - 1 ==> w[i] in rel && w[i + 1] in rel[w[i]]
  }

  ghost predicate IsCycle(rel: Relation, w: seq<Package>) {
    |w| >= 2 && w[0] == w[|w| - 1] && IsPath(rel, w)
  }

  ghost predicate HasCycle(rel: Relation) {
    exists w :: IsCycle(rel, w)
  }

  /** `d` is a dependency of `p`, directly or through others. */
  ghost predicate DependsOn(rel: Relation, p: Package, d: Package) {
    exists w :: |w| >= 2 && w[0] == p && w[|w| - 1] == d && IsPath(rel, w)
  }

  // ---------------------------------------------------------------- cycle detection

  /** Each package comes after everything it depends on. */
  ghost predicate Topological(rel: Relation, order: seq<Package>) {
    && Distinct(order)
    && forall k :: 0 <= k < |order| ==> order[k] in rel && rel[order[k]] <= ToSet(order[..k])
  }

  lemma TopologicalSnoc(rel: Relation, order: seq<Package>, p: Package)
    requires Topological(rel, order) && p in rel && p !in order && rel[p] <= ToSet(order)
    ensures Topological(rel, order + [p])
  {
    var longer := order + [p];
    DistinctSnoc(order, p);
    forall k | 0 <= k < |longer|
      ensures longer[k] in rel && rel[longer[k]] <= ToSet(longer[..k])
    {
      if k < |order| {
        assert longer[..k] == order[..k];
      } else {
        assert longer[..k] == order;
      }
    }
  }

  /** Along a path, positions in a topological order fall. */
  lemma {:induction false} PathFalls(rel: Relation, order: seq<Package>, w: seq<Package>, i: nat)
    requires Topological(rel, order) && IsPath(rel, w) && |w| >= 2
    requires i < |order| && order[i] == w[0]
    ensures w[|w| - 1] in order[..i]
    decreases |w|
  {
    assert w[0] in rel && w[0 + 1] in rel[w[0]];
    assert w[1] in order[..i];
    var j :| 0 <= j < i && order[j] == w[1];
    if |w| > 2 {
      var rest := w[1..];
      forall k | 0 <= k < |rest| - 1
        ensures rest[k] in rel && rest[k + 1] in rel[rest[k]]
      {
        assert rest[k] == w[k + 1] && rest[k + 1] == w[k + 1 + 1];
      }
      PathFalls(rel, order, rest, j);
      assert order[..j] <= order[..i];
    }
  }

  lemma TopologicalHasNoCycle(rel: Relation, order: seq<Package>)
    requires Topological(rel, order) && forall p :: p in rel ==> p in order
    ensures !HasCycle(rel)
  {
    forall w | |w| >= 2 && IsPath(rel, w)
      ensures w[0] != w[|w| - 1]
    {
      assert w[0] in rel && w[0 + 1] in rel[w[0]];
      var i :| 0 <= i < |order| && order[i] == w[0];
      PathFalls(rel, order, w, i);
    }
  }

  /** The stack is a path of unfinished packages, and what is finished is in topological order. */
  ghost predicate Sound(rel: Relation, stack: seq<Package>, order: seq<Package>) {
    && Internal(rel)
    && Distinct(stack) && IsPath(rel, stack)
    && (forall p :: p in stack ==> p in rel && p !in order)
    && Topological(rel, order)
  }

  lemma Push(rel: Relation, stack: seq<Package>, order: seq<Package>, p: Package)
    requires Sound(rel, stack, order) && p in rel && p !in stack && p !in order
    requires stack != [] ==> p in rel[stack[|stack| - 1]]
    ensures Sound(rel, stack + [p], order) && ToSet(stack + [p]) == ToSet(stack) + {p}
  {
  }

  lemma Pop(rel: Relation, stack: seq<Package>, order: seq<Package>, p: Package)
    requires Sound(rel, stack + [p], order) && rel[p] <= ToSet(order)
    ensures Sound(rel, stack, order + [p])
    ensures ToSet(stack) == ToSet(stack + [p]) - {p} && ToSet(order + [p]) == ToSet(order) + {p}
  {
    var s := stack + [p];
    assert s[|stack|] == p;
    assert forall i :: 0 <= i < |stack| ==> s[i] == stack[i];
    assert forall x :: x in stack ==> x in s;
    TopologicalSnoc(rel, order, p);
    assert forall i :: 0 <= i < |stack| - 1 ==> s[i] in rel && s[i + 1] in rel[s[i]];
  }

  class CycleCheck {
    const relationships: Relation
    var visited: set<Package>
    var active: set<Package>
    /** The packages being visited, outermost first, and those that are done, in that order. */
    ghost var stack: seq<Package>
    ghost var order: seq<Package>

    /** `Sound` stands under a quantifier so that it is unfolded only where it is asserted. */
    ghost predicate Valid()
      reads this
    {
      && active == ToSet(stack) && visited == ToSet(order)
      && Internal(relationships) && active <= relationships.Keys
      && (forall s :: s == stack ==> Sound(relationships, s, order))
    }

    constructor (relationships: Relation)
      requires Internal(relationships)
      ensures Valid() && stack == [] && order == [] && this.relationships == relationships
    {
      this.relationships := relationships;
      visited, active, stack, order := {}, {}, [], [];
    }

    /** A package met again while it is being visited is on a cycle. */
    lemma Revisited(package: Package)
      requires Valid() && package in active && package in relationships[stack[|stack| - 1]]
      ensures HasCycle(relationships)
    {
      assert Sound(relationships, stack, order);
      ClosesCycle(relationships, stack, package);
    }

    /** visit: when it returns, the package is done and so is everything it depends on; it raises only on a cycle. */
    method Visit(package: Package) returns (ok: bool)
      requires Valid() && package in relationships
      requires stack != [] ==> package in relationships[stack[|stack| - 1]]
      modifies this
      ensures ok ==> Valid() && stack == old(stack) && old(order) <= order && package in order
      ensures !ok ==> HasCycle(relationships)
      decreases |relationships.Keys - active|, 0
    {
      if package in active {
        Revisited(package);
        return false;
      }
      if package in visited {
        return true;
      }
      MarkShrinks(relationships.Keys, active, package);
      Enter(package);
      ok := VisitDependencies(package);
      if ok {
        Leave(old(stack), package);
      }
    }

    method Enter(package: Package)
      requires Valid() && package in relationships && package !in active && package !in visited
      requires stack != [] ==> package in relationships[stack[|stack| - 1]]
      modifies this`active, this`stack
      ensures Valid() && stack == old(stack) + [package] && active == old(active) + {package}
    {
      assert Sound(relationships, stack, order);
      Push(relationships, stack, order, package);
      active := active + {package};
      stack := stack + [package];
    }

    method Leave(ghost below: seq<Package>, package: Package)
      requires Valid() && stack == below + [package]
      requires package in relationships && relationships[package] <= ToSet(order)
      modifies this
      ensures Valid() && stack == below && order == old(order) + [package]
    {
      assert Sound(relationships, stack, order);
      Pop(relationships, below, order, package);
      active := active - {package};
      visited := visited + {package};
      stack := below;
      order := order + [package];
    }

    /** The loop over the dependencies of the package on top of the stack. */
    method VisitDependencies(package: Package) returns (ok: bool)
      requires Valid() && stack != [] && stack[|stack| - 1] == package && package in relationships
      modifies this
      ensures ok ==> Valid() && stack == old(stack) && old(order) <= order && relationships[package] <= ToSet(order)
      ensures !ok ==> HasCycle(relationships)
      decreases |relationships.Keys - active|, 1
    {
      var rest := relationships[package];
      while rest != {}
        invariant Valid() && stack == old(stack) && old(order) <= order
        invariant rest <= relationships[package] <= rest + ToSet(order)
        decreases |rest|
      {
        var dependency :| dependency in rest;
        ghost var before := order;
        ok := Visit(dependency);
        if !ok {
          return false;
        }
        assert forall p :: p in before ==> p in order;
        rest := rest - {dependency};
      }
      return true;
    }

    /** The cycle check fails exactly when there is a cycle; otherwise the completion order is topological. */
    method VisitAll() returns (ok: bool)
      requires Valid() && stack == [] && order == []
      modifies this
      ensures ok <==> !HasCycle(relationships)
      ensures ok ==> Topological(relationships, order) && ToSet(order) == relationships.Keys
    {
      var rest := relationships.Keys;
      while rest != {}
        invariant Valid() && stack == []
        invariant rest <= relationships.Keys <= rest + ToSet(order)
        decreases |rest|
      {
        var package :| package in rest;
        ghost var before := order;
        ok := Visit(package);
        if !ok {
          return false;
        }
        assert forall p :: p in before ==> p in order;
        rest := rest - {package};
      }
      assert Sound(relationships, stack, order);
      TopologicalHasNoCycle(relationships, order);
      return true;
    }
  }

  lemma PathSnoc(rel: Relation, w: seq<Package>, p: Package)
    requires IsPath(rel, w) && (w != [] ==> w[|w| - 1] in rel && p in rel[w[|w| - 1]])
    ensures IsPath(rel, w + [p])
  {
  }

  /** Meeting a package that is being visited closes a cycle through the stack. */
  lemma ClosesCycle(rel: Relation, stack: seq<Package>, p: Package)
    requires IsPath(rel, stack) && p in stack && stack[|stack| - 1] in rel && p in rel[stack[|stack| - 1]]
    ensures HasCycle(rel)
  {
    var i :| 0 <= i < |stack| && stack[i] == p;
    PathSnoc(rel, stack, p);
    var longer := stack + [p];
    var w := longer[i..];
    forall k | 0 <= k < |w| - 1
      ensures w[k] in rel && w[k + 1] in rel[w[k]]
    {
      assert w[k] == longer[k + i] && w[k + 1] == longer[k + i + 1];
    }
    assert IsCycle(rel, w);
  }

  // ---------------------------------------------------------------- the needs of jobs

  const TEST_ALL: Job := "test-all"

  const GATES: set<Job> := {"lint-all", "verify-ci-package-needs", "test-all"}

  const CORE: Package := "anduinos-core-system"

  predicate AfterCore(p: Package) {
    p == "plymouth-anduinos" || p == "anduinos-btrfs-snapshots-manager"
  }

  /** What the verifier reads: dependencies, the job of each package, the needs of each job. */
  datatype Project = Project(rel: Relation, jobOf: map<Package, Job>, needs: map<Job, set<Job>>)

  /**
   What holds once every project has a publishing job and every gate its stage: dependencies are known
   packages, the jobs of packages exist and are no gates, and the gates exist. Packages whose projects
   lie in one directory share a job.
   */
  ghost predicate WellFormed(pr: Project) {
    && Internal(pr.rel)
    && pr.jobOf.Keys == pr.rel.Keys
    && (forall p :: p in pr.rel ==> pr.jobOf[p] in pr.needs && pr.jobOf[p] !in GATES)
    && GATES <= pr.needs.Keys
  }

  /** The needs a package's job must have; without the core package there is no answer for its two followers. */
  function Expected(pr: Project, p: Package): Option<set<Job>>
    requires p in pr.rel && forall d :: d in pr.rel[p] ==> d in pr.jobOf
  {
    var base := (set d | d in pr.rel[p] :: pr.jobOf[d]) + {TEST_ALL};
    if !AfterCore(p) then Some(base)
    else if CORE in pr.jobOf then Some(base + {pr.jobOf[CORE]})
    else None
  }

  ghost predicate NeedsMatch(pr: Project, p: Package)
    requires WellFormed(pr) && p in pr.rel
  {
    var expected := Expected(pr, p);
    && expected.Some?
    && expected.value <= pr.needs[pr.jobOf[p]] <= expected.value + GATES
  }

  ghost predicate Accepted(pr: Project)
    requires WellFormed(pr)
  {
    && pr.needs[TEST_ALL] == GATES - {TEST_ALL}
    && (forall p :: p in pr.rel ==> NeedsMatch(pr, p))
    && !HasCycle(pr.rel)
  }

  /** The two packages whose jobs must also wait for the core package's. */
  ghost predicate Follower(p: Package) {
    p in {"plymouth-anduinos", "anduinos-btrfs-snapshots-manager"}
  }

  /** `j` is one of the jobs that package `p` has to wait for. */
  ghost predicate MustWaitFor(pr: Project, p: Package, j: Job)
    requires p in pr.rel
  {
    || j == "test-all"
    || (exists d :: d in pr.rel[p] && d in pr.jobOf && pr.jobOf[d] == j)
    || (Follower(p) && "anduinos-core-system" in pr.jobOf && j == pr.jobOf["anduinos-core-system"])
  }

  /** The job of `p` waits for all of these, and for nothing else but the two lint gates. */
  ghost predicate WaitsExactly(pr: Project, p: Package)
    requires WellFormed(pr) && p in pr.rel
  {
    && (Follower(p) ==> "anduinos-core-system" in pr.rel)
    && (forall j :: MustWaitFor(pr, p, j) ==> j in pr.needs[pr.jobOf[p]])
    && (forall j :: j in pr.needs[pr.jobOf[p]] ==>
          MustWaitFor(pr, p, j) || j == "lint-all" || j == "verify-ci-package-needs")
  }

  lemma NeedsMatchMeans(pr: Project, p: Package)
    requires WellFormed(pr) && p in pr.rel
    ensures NeedsMatch(pr, p) <==> WaitsExactly(pr, p)
  {
    var expected := Expected(pr, p);
    assert AfterCore(p) <==> Follower(p);
    if expected.Some? {
      assert forall j :: j in expected.value <==> MustWaitFor(pr, p, j);
    }
  }

  /** What acceptance promises, in terms of the project alone. */
  ghost predicate Sensible(pr: Project)
    requires WellFormed(pr)
  {
    && pr.needs["test-all"] == {"lint-all", "verify-ci-package-needs"}
    && (forall p :: p in pr.rel ==> WaitsExactly(pr, p))
    && !HasCycle(pr.rel)
  }

  lemma AcceptedMeans(pr: Project)
    requires WellFormed(pr)
    ensures Accepted(pr) <==> Sensible(pr)
  {
    assert GATES - {TEST_ALL} == {"lint-all", "verify-ci-package-needs"};
    forall p | p in pr.rel
      ensures NeedsMatch(pr, p) <==> WaitsExactly(pr, p)
    {
      NeedsMatchMeans(pr, p);
    }
  }

  /**
   verify, from the gate of test-all on: accepted exactly if test-all waits for both lint gates, each
   package's job waits exactly for what it must, and the dependencies have no cycle.
   */
  method Verify(pr: Project) returns (ok: bool)
    requires WellFormed(pr)
    ensures ok <==> Accepted(pr)
    ensures ok <==> Sensible(pr)
  {
    ok := Compare(pr);
    AcceptedMeans(pr);
  }

  /** The comparison of needs, then the cycle check. */
  method Compare(pr: Project) returns (ok: bool)
    requires WellFormed(pr)
    ensures ok <==> Accepted(pr)
  {
    if pr.needs[TEST_ALL] != GATES - {TEST_ALL} {
      return false;
    }
    var errors := false;
    var rest := pr.rel.Keys;
    while rest != {}
      invariant rest <= pr.rel.Keys
      invariant errors <==> exists p :: p in pr.rel.Keys - rest && !NeedsMatch(pr, p)
      decreases |rest|
    {
      var p :| p in rest;
      rest := rest - {p};
      var expected := Expected(pr, p);
      if expected.None? {
        assert !NeedsMatch(pr, p);
        return false;
      }
      var actual := pr.needs[pr.jobOf[p]];
      var missing, extra := expected.value - actual, actual - expected.value - GATES;
      if missing != {} || extra != {} {
        errors := true;
        assert !NeedsMatch(pr, p);
      } else {
        assert forall j :: j in expected.value ==> j !in missing;
        assert forall j :: j in actual ==> j !in extra;
        assert NeedsMatch(pr, p);
      }
    }
    if errors {
      return false;
    }
    var check := new CycleCheck(pr.rel);
    ok := check.VisitAll();
  }

  // ---------------------------------------------------------------- what acceptance means for a pipeline

  /** A job starts only when everything it needs has run. */
  ghost predicate Waits(pr: Project, run: seq<Job>) {
    forall k :: 0 <= k < |run| && run[k] in pr.needs ==> pr.needs[run[k]] <= ToSet(run[..k])
  }

  /** A job order in which each job runs once, after everything it needs. */
  ghost predicate Respects(pr: Project, run: seq<Job>) {
    Distinct(run) && Waits(pr, run)
  }

  /**
   If the verifier accepts, then in every job order that respects the needs, the job of a package
   runs after test-all, after the lint gates, and after the jobs of all its direct and transitive
   dependencies.
   */
  lemma PublishedAfterDependencies(pr: Project, run: seq<Job>, k: nat, p: Package, d: Package)
    requires WellFormed(pr) && Accepted(pr) && Respects(pr, run)
    requires p in pr.rel && k < |run| && run[k] == pr.jobOf[p]
    ensures GATES <= ToSet(run[..k])
    ensures DependsOn(pr.rel, p, d) ==> d in pr.jobOf && pr.jobOf[d] in run[..k]
  {
    assert NeedsMatch(pr, p);
    assert TEST_ALL in run[..k];
    var t :| 0 <= t < k && run[t] == TEST_ALL;
    assert forall g :: g in run[..t] ==> g in run[..k];
    assert GATES == (GATES - {TEST_ALL}) + {TEST_ALL};
    if DependsOn(pr.rel, p, d) {
      var w :| |w| >= 2 && w[0] == p && w[|w| - 1] == d && IsPath(pr.rel, w);
      DependencyEarlier(pr, run, k, w);
    }
  }

  lemma DirectEarlier(pr: Project, run: seq<Job>, k: nat, p: Package, d: Package)
    requires WellFormed(pr) && p in pr.rel && NeedsMatch(pr, p) && Waits(pr, run)
    requires d in pr.rel[p] && k < |run| && run[k] == pr.jobOf[p]
    ensures pr.jobOf[d] in run[..k]
  {
    assert pr.jobOf[d] in Expected(pr, p).value;
    assert pr.jobOf[d] in pr.needs[run[k]];
  }

  lemma PathTail(rel: Relation, w: seq<Package>)
    requires |w| >= 2 && IsPath(rel, w)
    ensures w[0] in rel && w[1] in rel[w[0]] && IsPath(rel, w[1..])
  {
  }

  lemma {:induction false} DependencyEarlier(pr: Project, run: seq<Job>, k: nat, w: seq<Package>)
    requires WellFormed(pr) && Accepted(pr) && Waits(pr, run)
    requires |w| >= 2 && IsPath(pr.rel, w) && k < |run| && w[0] in pr.rel && run[k] == pr.jobOf[w[0]]
    ensures w[|w| - 1] in pr.jobOf && pr.jobOf[w[|w| - 1]] in run[..k]
    decreases |w|
  {
    PathTail(pr.rel, w);
    DirectEarlier(pr, run, k, w[0], w[1]);
    if |w| > 2 {
      var j :| 0 <= j < k && run[j] == pr.jobOf[w[1]];
      PathTail(pr.rel, w[1..]);
      DependencyEarlier(pr, run, j, w[1..]);
      assert forall g :: g in run[..j] ==> g in run[..k];
    }
  }

  // ---------------------------------------------------------------- the edges the cycle check does not see

  /** The dependencies together with the two extra edges to the core package. */
  function Extended(rel: Relation): Relation {
    map p | p in rel :: if AfterCore(p) then rel[p] + {CORE} else rel[p]
  }

  /** The core package depends on one of the two packages that are published after it. */
  ghost predicate CoreFollows(rel: Relation) {
    exists p :: p in rel && AfterCore(p) && DependsOn(rel, CORE, p)
  }

  lemma PathGrows(rel: Relation, w: seq<Package>, p: Package)
    requires IsPath(rel, w) && w != [] && w[|w| - 1] in rel
    ensures p in rel[w[|w| - 1]] ==> IsPath(rel, w + [p])
  {
  }

  /** The first step of a path that only an extra edge allows. */
  lemma {:induction false} FirstExtra(rel: Relation, v: seq<Package>) returns (j: nat)
    requires IsPath(Extended(rel), v) && !IsPath(rel, v)
    ensures j < |v| - 1 && IsPath(rel, v[..j + 1])
    ensures v[j] in rel && AfterCore(v[j]) && v[j + 1] == CORE
    decreases |v|
  {
    var k := |v| - 2;
    var front := v[..k + 1];
    if IsPath(rel, front) {
      j := k;
      assert v[k] in Extended(rel) && v[k + 1] in Extended(rel)[v[k]];
      assert v == front + [v[k + 1]];
      PathGrows(rel, front, v[k + 1]);
    } else {
      j := FirstExtra(rel, front);
      assert front[..j + 1] == v[..j + 1];
    }
  }

  /** A path from the core package to a follower has a beginning without extra edges that does the same. */
  lemma CoreReachesFollower(rel: Relation, v: seq<Package>)
    requires Internal(rel) && IsPath(Extended(rel), v)
    requires |v| >= 2 && v[0] == CORE && AfterCore(v[|v| - 1]) && v[|v| - 1] in rel
    ensures CoreFollows(rel)
  {
    if IsPath(rel, v) {
      assert DependsOn(rel, CORE, v[|v| - 1]);
    } else {
      var j := FirstExtra(rel, v);
      var w := v[..j + 1];
      assert j > 0 && w[0] == CORE && w[|w| - 1] == v[j];
      assert DependsOn(rel, CORE, v[j]);
    }
  }

  /** A cycle, read from the step after `i` round to where that step starts. */
  lemma Rotate(rel: Relation, w: seq<Package>, i: nat)
    requires IsCycle(rel, w) && i < |w| - 1
    ensures IsPath(rel, w[i + 1..] + w[1..i + 1])
  {
  }

  lemma ExtraCycle(rel: Relation, w: seq<Package>)
    requires Internal(rel) && !HasCycle(rel) && IsCycle(Extended(rel), w)
    ensures CoreFollows(rel)
  {
    assert !IsCycle(rel, w);
    var i := FirstExtra(rel, w);
    Rotate(Extended(rel), w, i);
    var v := w[i + 1..] + w[1..i + 1];
    assert v[0] == CORE && v[|v| - 1] == w[i];
    CoreReachesFollower(rel, v);
  }

  lemma FollowerCloses(rel: Relation, w: seq<Package>)
    requires IsPath(rel, w) && |w| >= 2 && w[0] == CORE && w[|w| - 1] in rel && AfterCore(w[|w| - 1])
    ensures IsCycle(Extended(rel), w + [CORE])
  {
  }

  /** Where there is no cycle, the extra edges close one exactly if the core package depends on a follower. */
  lemma ExtraCycleIff(rel: Relation)
    requires Internal(rel) && !HasCycle(rel)
    ensures HasCycle(Extended(rel)) <==> CoreFollows(rel)
  {
    if HasCycle(Extended(rel)) {
      var w :| IsCycle(Extended(rel), w);
      ExtraCycle(rel, w);
    }
    if CoreFollows(rel) {
      var p :| p in rel && AfterCore(p) && DependsOn(rel, CORE, p);
      var w :| |w| >= 2 && w[0] == CORE && w[|w| - 1] == p && IsPath(rel, w);
      FollowerCloses(rel, w);
    }
  }

  // ---------------------------------------------------------------- whether the jobs can run

  /** A pipeline of existing jobs, each run once and after everything it needs, that publishes every package. */
  ghost predicate Publishes(pr: Project, run: seq<Job>)
    requires WellFormed(pr)
  {
    Topological(pr.needs, run) && forall p :: p in pr.rel ==> pr.jobOf[p] in run
  }

  /** Following needs from test-all never leads back to a job already met, nor to one that does not exist. */
  ghost predicate GatesClear(needs: Relation) {
    forall w :: |w| > 0 && w[0] == TEST_ALL && IsPath(needs, w) ==> Distinct(w) && w[|w| - 1] in needs
  }

  // ---------------------------------------------------------------- whether the gates can pass

  /** The jobs on a way from test-all come in falling order in every pipeline that contains test-all. */
  lemma GatesFall(needs: Relation, run: seq<Job>, w: seq<Job>)
    requires Topological(needs, run) && TEST_ALL in run
    requires |w| > 0 && w[0] == TEST_ALL && IsPath(needs, w)
    ensures Distinct(w) && w[|w| - 1] in needs
  {
    forall i | 0 <= i < |w|
      ensures w[i] in run
    {
      var k :| 0 <= k < |run| && run[k] == TEST_ALL;
      if i > 0 {
        PathFalls(needs, run, w[..i + 1], k);
      }
    }
    forall i, j | 0 <= i < j < |w|
      ensures w[i] != w[j]
    {
      var k :| 0 <= k < |run| && run[k] == w[i];
      SubPath(needs, w, i, j);
      PathFalls(needs, run, w[i..j + 1], k);
    }
  }

  lemma SubPath(rel: Relation, w: seq<Package>, i: nat, j: nat)
    requires IsPath(rel, w) && i < j < |w|
    ensures IsPath(rel, w[i..j + 1])
  {
    var v := w[i..j + 1];
    forall k | 0 <= k < |v| - 1
      ensures v[k] in rel && v[k + 1] in rel[v[k]]
    {
      assert v[k] == w[i + k] && v[k + 1] == w[i + k + 1];
    }
  }

  /** A clear way can be no longer than there are jobs. */
  lemma ClearFits(needs: Relation, w: seq<Job>)
    requires GatesClear(needs) && |w| > 0 && w[0] == TEST_ALL && IsPath(needs, w)
    ensures |w| <= |needs|
  {
    forall x | x in w
      ensures x in needs.Keys
    {
      var i :| 0 <= i < |w| && w[i] == x;
      assert i < |w| - 1 ==> w[i] in needs && w[i + 1] in needs[w[i]];
    }
    DistinctFits(w, needs.Keys);
  }

  /** Depth first: the last job of a clear way can be brought into a pipeline, after all it needs. */
  lemma {:induction false} Schedule(needs: Relation, run: seq<Job>, w: seq<Job>) returns (run': seq<Job>)
    requires GatesClear(needs) && Topological(needs, run)
    requires |w| > 0 && w[0] == TEST_ALL && IsPath(needs, w)
    ensures Topological(needs, run') && run <= run' && w[|w| - 1] in run'
    decreases |needs| - |w|, 1, 0
  {
    ClearFits(needs, w);
    var j := w[|w| - 1];
    run' := ScheduleNeeds(needs, run, w, needs[j]);
    if j !in run' {
      TopologicalSnoc(needs, run', j);
      run' := run' + [j];
    }
  }

  lemma {:induction false} ScheduleNeeds(needs: Relation, run: seq<Job>, w: seq<Job>, left: set<Job>)
    returns (run': seq<Job>)
    requires GatesClear(needs) && Topological(needs, run)
    requires |w| > 0 && w[0] == TEST_ALL && IsPath(needs, w) && w[|w| - 1] in needs && left <= needs[w[|w| - 1]]
    ensures Topological(needs, run') && run <= run' && left <= ToSet(run')
    decreases |needs| - |w|, 0, |left|
  {
    run' := run;
    if left != {} {
      var d :| d in left;
      PathSnoc(needs, w, d);
      ClearFits(needs, w + [d]);
      run' := Schedule(needs, run, w + [d]);
      run' := ScheduleNeeds(needs, run', w, left - {d});
    }
  }

  /** A pipeline with test-all exists exactly if the gates are clear. */
  lemma GatesPassIff(needs: Relation)
    ensures (exists run :: Topological(needs, run) && TEST_ALL in run) <==> GatesClear(needs)
  {
    if GatesClear(needs) {
      var run := Schedule(needs, [], [TEST_ALL]);
    }
    forall run, w | Topological(needs, run) && TEST_ALL in run && |w| > 0 && w[0] == TEST_ALL && IsPath(needs, w)
      ensures Distinct(w) && w[|w| - 1] in needs
    {
      GatesFall(needs, run, w);
    }
  }

  // ---------------------------------------------------------------- the order of the packages' jobs

  ghost predicate IsPackageJob(pr: Project, j: Job) {
    exists p :: p in pr.jobOf && pr.jobOf[p] == j
  }

  /** Jobs of packages, each after what it needs apart from the gates. */
  ghost predicate InOrder(pr: Project, jobs: seq<Job>) {
    && Distinct(jobs)
    && (forall k :: 0 <= k < |jobs| ==>
          && IsPackageJob(pr, jobs[k]) && jobs[k] in pr.needs
          && pr.needs[jobs[k]] <= GATES + ToSet(jobs[..k]))
  }

  /** If the core package depends on a follower, its job waits for itself. */
  lemma CoreEarlier(pr: Project, run: seq<Job>, k: nat, p: Package)
    requires WellFormed(pr) && Accepted(pr) && Waits(pr, run)
    requires p in pr.rel && AfterCore(p) && DependsOn(pr.rel, CORE, p) && CORE in pr.rel
    requires k < |run| && run[k] == pr.jobOf[CORE]
    ensures pr.jobOf[CORE] in run[..k]
  {
    var w :| |w| >= 2 && w[0] == CORE && w[|w| - 1] == p && IsPath(pr.rel, w);
    DependencyEarlier(pr, run, k, w);
    var j :| 0 <= j < k && run[j] == pr.jobOf[p];
    assert NeedsMatch(pr, p);
    assert pr.jobOf[CORE] in pr.needs[run[j]];
    assert pr.jobOf[CORE] in run[..j];
  }

  lemma CoreBlocks(pr: Project, run: seq<Job>)
    requires WellFormed(pr) && Accepted(pr) && CoreFollows(pr.rel) && Respects(pr, run)
    ensures exists p :: p in pr.rel && pr.jobOf[p] !in run
  {
    var p :| p in pr.rel && AfterCore(p) && DependsOn(pr.rel, CORE, p);
    var w :| |w| >= 2 && w[0] == CORE && w[|w| - 1] == p && IsPath(pr.rel, w);
    assert w[0] in pr.rel && w[0 + 1] in pr.rel[w[0]];
    if pr.jobOf[CORE] in run {
      var k :| 0 <= k < |run| && run[k] == pr.jobOf[CORE];
      CoreEarlier(pr, run, k, p);
    }
  }

  lemma GatesEarlier(pr: Project, run: seq<Job>, t: nat)
    requires WellFormed(pr) && Accepted(pr) && Waits(pr, run) && t < |run| && run[t] == TEST_ALL
    ensures GATES <= ToSet(run[..t + 1])
  {
    assert GATES == (GATES - {TEST_ALL}) + {TEST_ALL};
    assert forall g :: g in run[..t] ==> g in run[..t + 1];
    assert run[..t + 1][t] == TEST_ALL;
  }

  /** A run up to test-all publishes nothing yet. */
  lemma OnlyGates(pr: Project, run: seq<Job>, t: nat, p: Package)
    requires WellFormed(pr) && Accepted(pr) && Respects(pr, run)
    requires t < |run| && run[t] == TEST_ALL && p in pr.rel
    ensures pr.jobOf[p] !in run[..t + 1]
  {
  }

  /** Two pieces of a pipeline, the second of which needs nothing but both. */
  lemma Appended(needs: Relation, gates: seq<Job>, jobs: seq<Job>)
    requires Topological(needs, gates) && Distinct(jobs) && forall j :: j in jobs ==> j !in gates
    requires forall k :: 0 <= k < |jobs| ==> jobs[k] in needs && needs[jobs[k]] <= ToSet(gates) + ToSet(jobs[..k])
    ensures Topological(needs, gates + jobs)
  {
    var all := gates + jobs;
    forall i, j | 0 <= i < j < |all|
      ensures all[i] != all[j]
    {
      if i < |gates| <= j {
        assert jobs[j - |gates|] in jobs && gates[i] in gates;
      }
    }
    forall k | 0 <= k < |all|
      ensures all[k] in needs && needs[all[k]] <= ToSet(all[..k])
    {
      if k < |gates| {
        assert all[..k] == gates[..k];
      } else {
        assert all[k] == jobs[k - |gates|];
        assert all[..k] == gates + jobs[..k - |gates|];
      }
    }
  }

  /** Gates first, then the packages in order. */
  lemma GatesThenJobs(pr: Project, run: seq<Job>, t: nat, jobs: seq<Job>)
    requires WellFormed(pr) && Accepted(pr) && Topological(pr.needs, run)
    requires t < |run| && run[t] == TEST_ALL && InOrder(pr, jobs)
    ensures Topological(pr.needs, run[..t + 1] + jobs)
  {
    var gates := run[..t + 1];
    GatesEarlier(pr, run, t);
    forall j | j in jobs
      ensures j !in gates
    {
      var k :| 0 <= k < |jobs| && jobs[k] == j;
      assert IsPackageJob(pr, jobs[k]);
      var p :| p in pr.jobOf && pr.jobOf[p] == j;
      OnlyGates(pr, run, t, p);
    }
    forall k | 0 <= k < |gates|
      ensures gates[k] in pr.needs && pr.needs[gates[k]] <= ToSet(gates[..k])
    {
      assert gates[..k] == run[..k];
    }
    Appended(pr.needs, gates, jobs);
  }

  /** The jobs of packages in the order given, each where it is met first. */
  function JobsOf(pr: Project, order: seq<Package>): seq<Job>
    requires forall k :: 0 <= k < |order| ==> order[k] in pr.jobOf
    decreases |order|
  {
    if order == [] then []
    else
      var front, j := JobsOf(pr, order[..|order| - 1]), pr.jobOf[order[|order| - 1]];
      if j in front then front else front + [j]
  }

  /**
   A topological order of the extended dependencies orders the jobs. A shared job stands where its
   first package does: its needs are bounded by those of each of its packages.
   */
  lemma {:induction false} TopologicalJobs(pr: Project, order: seq<Package>)
    requires WellFormed(pr) && Accepted(pr) && Topological(Extended(pr.rel), order)
    ensures InOrder(pr, JobsOf(pr, order))
    ensures forall p :: p in order ==> pr.jobOf[p] in JobsOf(pr, order)
    decreases |order|
  {
    if order != [] {
      var k := |order| - 1;
      var front, p := order[..k], order[k];
      TopologicalFront(Extended(pr.rel), order);
      TopologicalJobs(pr, front);
      assert forall q :: q in order ==> q in front || q == p;
      NeedsBefore(pr, front, p);
      InOrderSnoc(pr, JobsOf(pr, front), pr.jobOf[p]);
    }
  }

  lemma TopologicalFront(rel: Relation, order: seq<Package>)
    requires Topological(rel, order) && order != []
    ensures Topological(rel, order[..|order| - 1])
    ensures order[|order| - 1] in rel && rel[order[|order| - 1]] <= ToSet(order[..|order| - 1])
  {
    var front := order[..|order| - 1];
    forall k | 0 <= k < |front|
      ensures front[k] in rel && rel[front[k]] <= ToSet(front[..k])
    {
      assert front[..k] == order[..k];
    }
  }

  lemma InOrderSnoc(pr: Project, jobs: seq<Job>, j: Job)
    requires InOrder(pr, jobs) && IsPackageJob(pr, j) && j in pr.needs && pr.needs[j] <= GATES + ToSet(jobs)
    ensures j !in jobs ==> InOrder(pr, jobs + [j])
  {
    var longer := jobs + [j];
    forall k | 0 <= k < |longer|
      ensures IsPackageJob(pr, longer[k]) && longer[k] in pr.needs
      ensures pr.needs[longer[k]] <= GATES + ToSet(longer[..k])
    {
      if k < |jobs| {
        assert longer[..k] == jobs[..k];
      } else {
        assert longer[..k] == jobs;
      }
    }
  }

  lemma NeedsBefore(pr: Project, front: seq<Package>, p: Package)
    requires WellFormed(pr) && Accepted(pr) && p in pr.rel
    requires (forall q :: q in front ==> q in pr.rel) && Extended(pr.rel)[p] <= ToSet(front)
    requires forall q :: q in front ==> pr.jobOf[q] in JobsOf(pr, front)
    ensures pr.needs[pr.jobOf[p]] <= GATES + ToSet(JobsOf(pr, front))
  {
    assert NeedsMatch(pr, p);
    forall j | j in pr.needs[pr.jobOf[p]] && j !in GATES
      ensures j in JobsOf(pr, front)
    {
      var d :| d in Extended(pr.rel)[p] && pr.jobOf[d] == j;
    }
  }

  /** With clear gates, an order of the jobs makes a pipeline. */
  lemma OrderRuns(pr: Project, jobs: seq<Job>)
    requires WellFormed(pr) && Accepted(pr) && InOrder(pr, jobs)
    requires forall p :: p in pr.rel ==> pr.jobOf[p] in jobs
    ensures GatesClear(pr.needs) ==> exists run :: Publishes(pr, run)
  {
    if GatesClear(pr.needs) {
      GatesPassIff(pr.needs);
      var run :| Topological(pr.needs, run) && TEST_ALL in run;
      var t :| 0 <= t < |run| && run[t] == TEST_ALL;
      GatesThenJobs(pr, run, t, jobs);
      assert Publishes(pr, run[..t + 1] + jobs);
    }
  }

  /** A pipeline that publishes something has passed the gates, and the core package follows nothing after it. */
  lemma PublishingNeeds(pr: Project, run: seq<Job>)
    requires WellFormed(pr) && Accepted(pr) && Publishes(pr, run)
    ensures !CoreFollows(pr.rel) && (pr.rel == map[] || GatesClear(pr.needs))
  {
    assert Respects(pr, run);
    if CoreFollows(pr.rel) {
      CoreBlocks(pr, run);
    }
    if pr.rel != map[] {
      var p :| p in pr.rel;
      var k :| 0 <= k < |run| && run[k] == pr.jobOf[p];
      PublishedAfterDependencies(pr, run, k, p, p);
      assert TEST_ALL in GATES;
      GatesPassIff(pr.needs);
    }
  }

  /**
   Whether accepted jobs can run, found by the cycle check when it is given the extra edges too: a
   pipeline that publishes every package exists exactly when the core package depends on neither
   follower and the gates are clear.
   */
  method CanPublish(pr: Project) returns (ok: bool)
    requires WellFormed(pr) && Accepted(pr)
    ensures ok <==> !CoreFollows(pr.rel)
    ensures (exists run :: Publishes(pr, run)) <==>
            !CoreFollows(pr.rel) && (pr.rel == map[] || GatesClear(pr.needs))
  {
    forall p | p in pr.rel && AfterCore(p)
      ensures CORE in pr.rel
    {
      assert NeedsMatch(pr, p);
    }
    var check := new CycleCheck(Extended(pr.rel));
    ok := check.VisitAll();
    ExtraCycleIff(pr.rel);
    forall run | Publishes(pr, run)
      ensures !CoreFollows(pr.rel) && (pr.rel == map[] || GatesClear(pr.needs))
    {
      PublishingNeeds(pr, run);
    }
    if pr.rel == map[] {
      assert Publishes(pr, []);
    }
    if ok {
      TopologicalJobs(pr, check.order);
      assert forall p :: p in pr.rel ==> p in ToSet(check.order);
      OrderRuns(pr, JobsOf(pr, check.order));
    }
  }

  /** A project that is accepted although two of its jobs wait for each other. */
  function Deadlocked(): Project {
    Project(map["anduinos-core-system" := {"plymouth-anduinos"}, "plymouth-anduinos" := {}],
            map["anduinos-core-system" := "core", "plymouth-anduinos" := "plymouth"],
            map["lint-all" := {}, "verify-ci-package-needs" := {},
                "test-all" := {"lint-all", "verify-ci-package-needs"},
                "core" := {"test-all", "plymouth"}, "plymouth" := {"test-all", "core"}])
  }

  lemma DeadlockedNeeds()
    ensures WellFormed(Deadlocked())
    ensures NeedsMatch(Deadlocked(), "anduinos-core-system") && NeedsMatch(Deadlocked(), "plymouth-anduinos")
  {
  }

  lemma DeadlockedOrder()
    ensures !HasCycle(Deadlocked().rel)
  {
    var order := ["plymouth-anduinos", "anduinos-core-system"];
    assert order[..0] == [] && order[..1] == ["plymouth-anduinos"];
    TopologicalHasNoCycle(Deadlocked().rel, order);
  }

  lemma DeadlockedAccepted()
    ensures WellFormed(Deadlocked()) && Accepted(Deadlocked())
  {
    DeadlockedNeeds();
    DeadlockedOrder();
    assert GATES - {TEST_ALL} == {"lint-all", "verify-ci-package-needs"};
  }

  lemma DeadlockedFollows()
    ensures CoreFollows(Deadlocked().rel)
  {
    var w := ["anduinos-core-system", "plymouth-anduinos"];
    assert IsPath(Deadlocked().rel, w) && w[0] == CORE;
    assert DependsOn(Deadlocked().rel, CORE, "plymouth-anduinos");
  }

  lemma AcceptedDeadlock(run: seq<Job>)
    ensures WellFormed(Deadlocked()) && Accepted(Deadlocked())
    ensures Respects(Deadlocked(), run) ==> exists p :: p in Deadlocked().rel && Deadlocked().jobOf[p] !in run
  {
    DeadlockedAccepted();
    DeadlockedFollows();
    if Respects(Deadlocked(), run) {
      CoreBlocks(Deadlocked(), run);
    }
  }
}
