/**
 * The dependency checks of scripts/validate-task-index.py: duplicate ids, missing, repeated and
 * self dependencies, and the in-degree queue that decides whether the graph has a cycle.
 */
module TaskIndex {
  import opened Prelude
  import opened Sorting

  /** One task record: t["id"] and t.get("dependencies") or []. */
  datatype Task = Task(id: string, deps: seq<string>)

  /** One increment of indeg[child], made because child lists the known id dep. */
  datatype Edge = Edge(child: string, dep: string)

  function Ids(tasks: seq<Task>): set<string> {
    set t | t in tasks :: t.id
  }

  predicate UniqueIds(tasks: seq<Task>) {
    forall i, j :: 0 <= i < j < |tasks| ==> tasks[i].id != tasks[j].id
  }

  // ---- What the graph means -------------------------------------------------------------------

  predicate DependsOn(tasks: seq<Task>, a: string, b: string) {
    b in Ids(tasks) && exists t :: t in tasks && t.id == a && b in t.deps
  }

  predicate StepAt(tasks: seq<Task>, p: seq<string>, i: int)
    requires 0 <= i < |p| - 1
  {
    DependsOn(tasks, p[i], p[i + 1])
  }

  /** A walk follows known dependencies from one id to the next. */
  predicate IsWalk(tasks: seq<Task>, p: seq<string>) {
    |p| >= 1 && p[0] in Ids(tasks) && forall i :: 0 <= i < |p| - 1 ==> StepAt(tasks, p, i)
  }

  predicate ReturnsTo(p: seq<string>, k: int) {
    0 <= k < |p| - 1 && p[k] == p[|p| - 1]
  }

  ghost predicate Cyclic(tasks: seq<Task>) {
    exists p :: IsWalk(tasks, p) && ReturnsTo(p, 0)
  }

  /** Following dependencies from x one can come back to a place already visited. */
  ghost predicate ReachesCycle(tasks: seq<Task>, x: string) {
    exists p, k :: IsWalk(tasks, p) && p[0] == x && ReturnsTo(p, k)
  }

  lemma {:induction false} WalkSuffix(tasks: seq<Task>, p: seq<string>, k: nat)
    requires IsWalk(tasks, p) && k < |p|
    ensures IsWalk(tasks, p[k..])
  {
    var c := p[k..];
    if k > 0 { assert StepAt(tasks, p, k - 1); }
    forall i | 0 <= i < |c| - 1 ensures StepAt(tasks, c, i) { assert StepAt(tasks, p, k + i); }
  }

  lemma {:induction false} WalkPrefix(tasks: seq<Task>, p: seq<string>, k: nat)
    requires IsWalk(tasks, p) && 0 < k <= |p|
    ensures IsWalk(tasks, p[..k])
  {
    var c := p[..k];
    forall i | 0 <= i < |c| - 1 ensures StepAt(tasks, c, i) { assert StepAt(tasks, p, i); }
  }

  lemma {:induction false} CyclicIffSomeIdReachesCycle(tasks: seq<Task>)
    ensures Cyclic(tasks) <==> exists x :: x in Ids(tasks) && ReachesCycle(tasks, x)
  {
    if Cyclic(tasks) {
      var p :| IsWalk(tasks, p) && ReturnsTo(p, 0);
      assert ReachesCycle(tasks, p[0]);
    }
    if x :| x in Ids(tasks) && ReachesCycle(tasks, x) {
      var p, k :| IsWalk(tasks, p) && p[0] == x && ReturnsTo(p, k);
      WalkSuffix(tasks, p, k);
      assert ReturnsTo(p[k..], 0);
    }
  }

  // ---- The edge list behind indeg and children --------------------------------------------------

  function TaskEdges(t: Task, known: set<string>, n: nat): seq<Edge>
    requires n <= |t.deps|
  {
    if n == 0 then []
    else TaskEdges(t, known, n - 1) + if t.deps[n - 1] in known then [Edge(t.id, t.deps[n - 1])] else []
  }

  function Edges(tasks: seq<Task>, known: set<string>, n: nat): seq<Edge>
    requires n <= |tasks|
  {
    if n == 0 then []
    else Edges(tasks, known, n - 1) + TaskEdges(tasks[n - 1], known, |tasks[n - 1].deps|)
  }

  lemma {:induction false} TaskEdgesMeaning(t: Task, known: set<string>, n: nat, e: Edge)
    requires n <= |t.deps|
    ensures e in TaskEdges(t, known, n) <==> e.child == t.id && e.dep in t.deps[..n] && e.dep in known
  {
    if n > 0 {
      TaskEdgesMeaning(t, known, n - 1, e);
      assert t.deps[..n] == t.deps[..n - 1] + [t.deps[n - 1]];
    }
  }

  lemma {:induction false} EdgesMeaning(tasks: seq<Task>, known: set<string>, n: nat, e: Edge)
    requires n <= |tasks|
    ensures e in Edges(tasks, known, n) <==>
            e.dep in known && exists t :: t in tasks[..n] && t.id == e.child && e.dep in t.deps
  {
    if n > 0 {
      EdgesMeaning(tasks, known, n - 1, e);
      var t := tasks[n - 1];
      TaskEdgesMeaning(t, known, |t.deps|, e);
      assert t.deps[..|t.deps|] == t.deps;
      assert tasks[..n] == tasks[..n - 1] + [t];
    }
  }

  lemma {:induction false} EdgeIsDependency(tasks: seq<Task>, e: Edge)
    ensures e in Edges(tasks, Ids(tasks), |tasks|) <==> DependsOn(tasks, e.child, e.dep)
  {
    EdgesMeaning(tasks, Ids(tasks), |tasks|, e);
    assert tasks[..|tasks|] == tasks;
  }

  /** How many edges leave id towards something not yet done: the value indeg[id] must have. */
  function Unmet(edges: seq<Edge>, id: string, done: set<string>): nat {
    if edges == [] then 0
    else
      var e := edges[|edges| - 1];
      Unmet(edges[..|edges| - 1], id, done) + if e.child == id && e.dep !in done then 1 else 0
  }

  /** The list children[d]: who lists d, in the order it was appended. */
  function ChildList(edges: seq<Edge>, d: string): seq<string> {
    if edges == [] then []
    else
      var e := edges[|edges| - 1];
      ChildList(edges[..|edges| - 1], d) + if e.dep == d then [e.child] else []
  }

  lemma {:induction false} UnmetZero(edges: seq<Edge>, id: string, done: set<string>)
    ensures Unmet(edges, id, done) == 0 <==> forall e :: e in edges && e.child == id ==> e.dep in done
  {
    if edges != [] {
      UnmetZero(edges[..|edges| - 1], id, done);
      assert edges == edges[..|edges| - 1] + [edges[|edges| - 1]];
    }
  }

  /** Marking n done lowers each count by exactly the number of times the id occurs in children[n]. */
  lemma {:induction false} UnmetAfterDone(edges: seq<Edge>, id: string, done: set<string>, n: string)
    requires n !in done
    ensures Unmet(edges, id, done) == Unmet(edges, id, done + {n}) + multiset(ChildList(edges, n))[id]
  {
    if edges != [] {
      UnmetAfterDone(edges[..|edges| - 1], id, done, n);
    }
  }

  lemma {:induction false} ChildListInIds(edges: seq<Edge>, n: string, known: set<string>)
    requires forall e :: e in edges ==> e.child in known
    ensures forall c :: c in ChildList(edges, n) ==> c in known
  {
    if edges != [] {
      assert edges == edges[..|edges| - 1] + [edges[|edges| - 1]];
      ChildListInIds(edges[..|edges| - 1], n, known);
    }
  }

  // ---- What a popped sequence must satisfy ------------------------------------------------------

  /** Each id at most once, and every known dependency strictly before the id that lists it. */
  ghost predicate DependencyOrder(tasks: seq<Task>, order: seq<string>) {
    && Distinct(order)
    && Elems(order) <= Ids(tasks)
    && forall i, d :: 0 <= i < |order| && DependsOn(tasks, order[i], d) ==> d in order[..i]
  }

  lemma {:induction false} WalkStepsBack(tasks: seq<Task>, order: seq<string>, p: seq<string>, k: nat, i: nat)
    returns (j: nat)
    requires DependencyOrder(tasks, order) && IsWalk(tasks, p)
    requires i < |order| && p[0] == order[i]
    requires k < |p|
    ensures j <= i && j <= i - k && order[j] == p[k]
  {
    if k == 0 {
      j := i;
    } else {
      var j' := WalkStepsBack(tasks, order, p, k - 1, i);
      assert StepAt(tasks, p, k - 1);
      assert p[k] in order[..j'];
      j :| 0 <= j < j' && order[j] == p[k];
    }
  }

  /** An ordered id never reaches a cycle. */
  lemma {:induction false} OrderedIdsAvoidCycles(tasks: seq<Task>, order: seq<string>, x: string)
    requires DependencyOrder(tasks, order) && x in order
    ensures !ReachesCycle(tasks, x)
  {
    if ReachesCycle(tasks, x) {
      var p, k :| IsWalk(tasks, p) && p[0] == x && ReturnsTo(p, k);
      var i :| 0 <= i < |order| && order[i] == x;
      var j := WalkStepsBack(tasks, order, p, k, i);
      WalkSuffix(tasks, p, k);
      var j' := WalkStepsBack(tasks, order, p[k..], |p| - 1 - k, j);
      assert false;
    }
  }

  ghost predicate NoWayOut(tasks: seq<Task>, left: set<string>) {
    left <= Ids(tasks) && forall a :: a in left ==> HasDependencyIn(tasks, left, a)
  }

  ghost predicate HasDependencyIn(tasks: seq<Task>, left: set<string>, a: string) {
    exists b :: b in left && DependsOn(tasks, a, b)
  }

  lemma {:induction false} WalkCons(tasks: seq<Task>, x: string, tail: seq<string>)
    requires IsWalk(tasks, tail) && x in Ids(tasks) && DependsOn(tasks, x, tail[0])
    ensures IsWalk(tasks, [x] + tail)
  {
    hide Ids, DependsOn;
    var p := [x] + tail;
    forall i | 0 <= i < |p| - 1 ensures StepAt(tasks, p, i) {
      assert i > 0 ==> StepAt(tasks, tail, i - 1);
    }
  }

  /** Where every id has an unmet dependency, one can keep walking for any number of steps. */
  lemma {:induction false} WalkInside(tasks: seq<Task>, left: set<string>, x: string, n: nat) returns (p: seq<string>)
    requires x in left && NoWayOut(tasks, left)
    ensures IsWalk(tasks, p) && |p| == n + 1 && p[0] == x && forall i :: 0 <= i < |p| ==> p[i] in left
    decreases n
  {
    hide DependsOn;
    if n == 0 {
      p := [x];
    } else {
      assert HasDependencyIn(tasks, left, x);
      var y :| y in left && DependsOn(tasks, x, y);
      hide IsWalk, Ids;
      var tail := WalkInside(tasks, left, y, n - 1);
      WalkCons(tasks, x, tail);
      p := [x] + tail;
    }
  }

  lemma {:induction false} BlockedIdsReachCycles(tasks: seq<Task>, left: set<string>, x: string)
    requires x in left && NoWayOut(tasks, left)
    ensures ReachesCycle(tasks, x)
  {
    hide IsWalk, NoWayOut, Ids;
    var p := WalkInside(tasks, left, x, |left|);
    Pigeonhole(p, left);
    var i, j :| 0 <= i < j < |p| && p[i] == p[j];
    WalkPrefix(tasks, p, j + 1);
    assert ReturnsTo(p[..j + 1], i) && p[..j + 1][0] == x;
  }

  // ---- Building indeg and children ---------------------------------------------------------------

  /** The two dictionaries describe the edges seen so far. */
  ghost predicate Records(indeg: map<string, int>, children: map<string, seq<string>>, edges: seq<Edge>,
                          known: set<string>)
  {
    && indeg.Keys == known
    && (forall id :: id in known ==> indeg[id] == Unmet(edges, id, {}))
    && (forall d :: Lookup(children, d) == ChildList(edges, d))
  }

  /** children is a defaultdict(list). */
  function Lookup(children: map<string, seq<string>>, d: string): seq<string> {
    if d in children then children[d] else []
  }

  /** indeg[child] += 1 and children[dep].append(child) record one more edge. */
  lemma {:induction false} RecordEdge(indeg: map<string, int>, children: map<string, seq<string>>, edges: seq<Edge>,
                                      known: set<string>, e: Edge)
    requires Records(indeg, children, edges, known) && e.child in known
    ensures Records(indeg[e.child := indeg[e.child] + 1], children[e.dep := Lookup(children, e.dep) + [e.child]],
                    edges + [e], known)
  {
    var after := edges + [e];
    assert after[..|after| - 1] == edges;
    var indeg' := indeg[e.child := indeg[e.child] + 1];
    assert indeg'.Keys == known;
    forall id | id in known ensures indeg'[id] == Unmet(after, id, {}) {}
    var children' := children[e.dep := Lookup(children, e.dep) + [e.child]];
    forall d ensures Lookup(children', d) == ChildList(after, d) {
      assert Lookup(children, d) == ChildList(edges, d);
    }
  }

  method CountDependencies(tasks: seq<Task>) returns (indeg: map<string, int>, children: map<string, seq<string>>)
    ensures Records(indeg, children, Edges(tasks, Ids(tasks), |tasks|), Ids(tasks))
  {
    var known := Ids(tasks);
    indeg := map id | id in known :: 0;
    children := map[];
    assert Records(indeg, children, Edges(tasks, known, 0), known);
    hide Records;
    for i := 0 to |tasks|
      invariant Records(indeg, children, Edges(tasks, known, i), known)
    {
      indeg, children := CountTask(tasks[i], known, indeg, children, Edges(tasks, known, i));
    }
  }

  /** The inner loop, for d in t.get("dependencies"). */
  method CountTask(t: Task, known: set<string>, indeg0: map<string, int>, children0: map<string, seq<string>>,
                   ghost edges: seq<Edge>)
    returns (indeg: map<string, int>, children: map<string, seq<string>>)
    requires Records(indeg0, children0, edges, known) && t.id in known
    ensures Records(indeg, children, edges + TaskEdges(t, known, |t.deps|), known)
  {
    indeg, children := indeg0, children0;
    assert indeg.Keys == known;
    assert edges + TaskEdges(t, known, 0) == edges;
    hide Records;
    for j := 0 to |t.deps|
      invariant Records(indeg, children, edges + TaskEdges(t, known, j), known) && indeg.Keys == known
    {
      var d := t.deps[j];
      ghost var before := edges + TaskEdges(t, known, j);
      if d !in known {
        assert edges + TaskEdges(t, known, j + 1) == before;
      } else {
        assert edges + TaskEdges(t, known, j + 1) == before + [Edge(t.id, d)];
        RecordEdge(indeg, children, before, known, Edge(t.id, d));
        indeg := indeg[t.id := indeg[t.id] + 1];
        children := children[d := Lookup(children, d) + [t.id]];
      }
    }
  }

  // ---- The queue ----------------------------------------------------------------------------------

  /**
   * The queue loop between two steps. seen is every id ever enqueued, in order, and done the set of
   * those popped; pending counts decrements of the current pop that are still to come.
   */
  ghost predicate QueueState(edges: seq<Edge>, known: set<string>, indeg: map<string, int>, seen: seq<string>,
                             done: set<string>, pending: multiset<string>)
  {
    && indeg.Keys == known
    && Distinct(seen)
    && (forall id :: id in known ==> indeg[id] == Unmet(edges, id, done) + pending[id])
    && (forall id :: id in seen <==> id in known && indeg[id] == 0)
  }

  lemma {:induction false} ReleaseOne(edges: seq<Edge>, known: set<string>, indeg: map<string, int>, seen: seq<string>,
                                      done: set<string>, pending: multiset<string>, c: string)
    requires QueueState(edges, known, indeg, seen, done, pending + multiset{c}) && c in known
    ensures var indeg' := indeg[c := indeg[c] - 1];
            QueueState(edges, known, indeg', if indeg'[c] == 0 then seen + [c] else seen, done, pending)
  {
    assert (pending + multiset{c})[c] == pending[c] + 1;
    assert c !in seen;
    var indeg' := indeg[c := indeg[c] - 1];
    forall id | id in known ensures indeg'[id] == Unmet(edges, id, done) + pending[id] {
      assert id != c ==> (pending + multiset{c})[id] == pending[id];
    }
  }

  /** for c in sorted(children[n]): lower indeg[c] and enqueue c when it reaches zero. */
  method ReleaseChildren(ghost edges: seq<Edge>, ghost known: set<string>, cs: seq<string>, indeg0: map<string, int>,
                         q0: seq<string>, ghost seen0: seq<string>, ghost done: set<string>)
    returns (indeg: map<string, int>, q: seq<string>, ghost more: seq<string>)
    requires indeg0.Keys == known && forall c :: c in cs ==> c in known
    requires QueueState(edges, known, indeg0, seen0, done, multiset(cs))
    ensures QueueState(edges, known, indeg, seen0 + more, done, multiset{}) && indeg.Keys == known
    ensures q == q0 + more
  {
    hide QueueState;
    indeg, q, more := indeg0, q0, [];
    assert cs[0..] == cs && seen0 + more == seen0;
    for k := 0 to |cs|
      invariant QueueState(edges, known, indeg, seen0 + more, done, multiset(cs[k..])) && indeg.Keys == known
      invariant q == q0 + more
    {
      var c := cs[k];
      assert cs[k..] == [c] + cs[k + 1..];
      assert multiset(cs[k..]) == multiset(cs[k + 1..]) + multiset{c};
      ReleaseOne(edges, known, indeg, seen0 + more, done, multiset(cs[k + 1..]), c);
      assert seen0 + (more + [c]) == seen0 + more + [c];
      indeg := indeg[c := indeg[c] - 1];
      if indeg[c] == 0 {
        q, more := q + [c], more + [c];
      }
    }
  }

  /** The loop body: pop the front id and release the ids that were waiting for it. */
  method PopFront(tasks: seq<Task>, indeg0: map<string, int>, children: map<string, seq<string>>, q0: seq<string>,
                  ghost popped: seq<string>)
    returns (indeg: map<string, int>, q: seq<string>)
    requires q0 != [] && InLoop(tasks, indeg0, children, q0, popped)
    ensures InLoop(tasks, indeg, children, q, popped + [q0[0]]) && |popped| < |Ids(tasks)|
  {
    hide *;
    var n := q0[0];
    var cs := Sort(Lookup(children, n), LexLeq);
    PopKeepsState(tasks, indeg0, children, popped, q0, cs);
    ghost var more;
    indeg, q, more := ReleaseChildren(Edges(tasks, Ids(tasks), |tasks|), Ids(tasks), cs, indeg0, q0[1..], popped + q0,
                                      Elems(popped + [n]));
    assert popped + q0 + more == popped + [n] + q;
    NextIteration(tasks, indeg0, indeg, children, q0, q, popped, popped + [n]);
  }

  lemma {:induction false} NextIteration(tasks: seq<Task>, indeg0: map<string, int>, indeg: map<string, int>,
                                         children: map<string, seq<string>>, q0: seq<string>, q: seq<string>,
                                         popped0: seq<string>, popped: seq<string>)
    requires InLoop(tasks, indeg0, children, q0, popped0)
    requires QueueState(Edges(tasks, Ids(tasks), |tasks|), Ids(tasks), indeg, popped + q, Elems(popped), multiset{})
    requires DependencyOrder(tasks, popped)
    ensures InLoop(tasks, indeg, children, q, popped)
  {}

  ghost predicate InLoop(tasks: seq<Task>, indeg: map<string, int>, children: map<string, seq<string>>, q: seq<string>,
                         popped: seq<string>)
  {
    var edges := Edges(tasks, Ids(tasks), |tasks|);
    && QueueState(edges, Ids(tasks), indeg, popped + q, Elems(popped), multiset{})
    && (forall d :: Lookup(children, d) == ChildList(edges, d))
    && DependencyOrder(tasks, popped)
  }

  /** Kahn's loop. The ghost result is the order in which ids are popped. */
  method CheckOrder(tasks: seq<Task>) returns (ordered: nat, ghost popped: seq<string>)
    ensures ordered == |popped| && DependencyOrder(tasks, popped)
    ensures forall id :: id in Ids(tasks) ==> (id !in popped <==> ReachesCycle(tasks, id))
    ensures ordered == |tasks| <==> UniqueIds(tasks) && !Cyclic(tasks)
  {
    var indeg, children := CountDependencies(tasks);
    var q := InitialQueue(indeg);
    ordered, popped := 0, [];
    QueueStart(tasks, indeg, children, q);
    while q != []
      invariant InLoop(tasks, indeg, children, q, popped) && ordered == |popped|
      decreases |Ids(tasks)| - |popped|
    {
      hide *;
      ghost var n := q[0];
      indeg, q := PopFront(tasks, indeg, children, q, popped);
      ordered, popped := ordered + 1, popped + [n];
    }
    assert popped + q == popped;
    QueueOutcome(tasks, indeg, popped);
  }

  /** deque(sorted(ids whose in-degree is zero)). */
  method InitialQueue(indeg: map<string, int>) returns (q: seq<string>)
    ensures Distinct(q) && SortedBy(q, LexLeq)
    ensures forall id :: id in q <==> id in indeg && indeg[id] == 0
  {
    var zero := set id | id in indeg && indeg[id] == 0;
    var rest := zero;
    var found: seq<string> := [];
    while rest != {}
      invariant rest <= zero && Distinct(found)
      invariant forall id :: id in found <==> id in zero && id !in rest
      decreases |rest|
    {
      var id :| id in rest;
      rest := rest - {id};
      found := found + [id];
    }
    q := Sort(found, LexLeq);
    SameMultisetDistinct(found, q);
    LexIsTotalOrder();
    SortSorts(found, LexLeq);
  }

  lemma {:induction false} SameMultisetDistinct<T>(a: seq<T>, b: seq<T>)
    requires multiset(a) == multiset(b) && Distinct(a)
    ensures Distinct(b) && forall x :: x in a <==> x in b
  {
    assert forall x :: x in a <==> x in multiset(a);
    assert forall x :: x in b <==> x in multiset(b);
    assert Elems(a) == Elems(b);
    DistinctCard(a);
    DistinctCard(b);
    assert |multiset(a)| == |a| && |multiset(b)| == |b|;
  }

  /** The state in which the queue loop starts. */
  lemma {:induction false} QueueStart(tasks: seq<Task>, indeg: map<string, int>, children: map<string, seq<string>>,
                                      q: seq<string>)
    requires Records(indeg, children, Edges(tasks, Ids(tasks), |tasks|), Ids(tasks))
    requires Distinct(q) && forall id :: id in q <==> id in indeg && indeg[id] == 0
    ensures InLoop(tasks, indeg, children, q, [])
  {
    var none: seq<string> := [];
    assert Elems(none) == {} && none + q == q;
  }

  /** The queue front has every known dependency already popped. */
  lemma {:induction false} FrontIsReady(tasks: seq<Task>, indeg: map<string, int>, popped: seq<string>, q: seq<string>)
    requires QueueState(Edges(tasks, Ids(tasks), |tasks|), Ids(tasks), indeg, popped + q, Elems(popped), multiset{})
    requires q != [] && DependencyOrder(tasks, popped)
    ensures q[0] !in Elems(popped) && DependencyOrder(tasks, popped + [q[0]]) && |popped| < |Ids(tasks)|
    ensures Elems(popped + [q[0]]) == Elems(popped) + {q[0]}
  {
    var n, seen := q[0], popped + q;
    var edges := Edges(tasks, Ids(tasks), |tasks|);
    assert seen[|popped|] == n && forall i :: 0 <= i < |popped| ==> seen[i] == popped[i];
    assert n in seen && n !in popped;
    UnmetZero(edges, n, Elems(popped));
    hide QueueState, Edges;
    forall d | DependsOn(tasks, n, d) ensures d in popped {
      EdgeIsDependency(tasks, Edge(n, d));
      assert Edge(n, d) in edges;
    }
    OrderSnoc(tasks, popped, n);
  }

  lemma {:induction false} OrderSnoc(tasks: seq<Task>, order: seq<string>, n: string)
    requires DependencyOrder(tasks, order) && n in Ids(tasks) && n !in order
    requires forall d :: DependsOn(tasks, n, d) ==> d in order
    ensures DependencyOrder(tasks, order + [n]) && |order| < |Ids(tasks)|
    ensures Elems(order + [n]) == Elems(order) + {n}
  {
    hide DependsOn, Ids;
    var order' := order + [n];
    assert Distinct(order') && Elems(order') == Elems(order) + {n};
    DistinctCard(order');
    SubsetCard(Elems(order'), Ids(tasks));
    forall i, d | 0 <= i < |order'| && DependsOn(tasks, order'[i], d)
      ensures d in order'[..i]
    {
      assert order'[..i] == order[..i];
      assert i == |order| ==> order[..i] == order;
    }
  }

  /** Popping n leaves exactly the entries of children[n] to be accounted for. */
  lemma {:induction false} PopKeepsState(tasks: seq<Task>, indeg: map<string, int>, children: map<string, seq<string>>,
                                         popped: seq<string>, q: seq<string>, cs: seq<string>)
    requires q != [] && InLoop(tasks, indeg, children, q, popped)
    requires multiset(cs) == multiset(Lookup(children, q[0]))
    ensures DependencyOrder(tasks, popped + [q[0]]) && |popped| < |Ids(tasks)|
    ensures QueueState(Edges(tasks, Ids(tasks), |tasks|), Ids(tasks), indeg, popped + q, Elems(popped + [q[0]]),
                       multiset(cs))
    ensures indeg.Keys == Ids(tasks) && forall c :: c in cs ==> c in Ids(tasks)
  {
    var edges := Edges(tasks, Ids(tasks), |tasks|);
    FrontIsReady(tasks, indeg, popped, q);
    var n, done := q[0], Elems(popped);
    forall id ensures Unmet(edges, id, done) == Unmet(edges, id, done + {n}) + multiset(cs)[id] {
      UnmetAfterDone(edges, id, done, n);
    }
    forall e | e in edges ensures e.child in Ids(tasks) { EdgeIsDependency(tasks, e); }
    ChildListInIds(edges, n, Ids(tasks));
    assert forall c :: c in cs ==> c in multiset(cs);
  }

  /** What an empty queue means. */
  lemma {:induction false} QueueOutcome(tasks: seq<Task>, indeg: map<string, int>, popped: seq<string>)
    requires QueueState(Edges(tasks, Ids(tasks), |tasks|), Ids(tasks), indeg, popped, Elems(popped), multiset{})
    requires DependencyOrder(tasks, popped)
    ensures forall id :: id in Ids(tasks) ==> (id !in popped <==> ReachesCycle(tasks, id))
    ensures |popped| == |tasks| <==> UniqueIds(tasks) && !Cyclic(tasks)
  {
    hide QueueState, DependencyOrder, ReachesCycle, Cyclic, UniqueIds, Distinct;
    assert Distinct(popped) && Elems(popped) <= Ids(tasks) by { DependencyOrderBasics(tasks, popped); }
    var left := Ids(tasks) - Elems(popped);
    LeftoversBlockEachOther(tasks, indeg, popped);
    forall id | id in Ids(tasks)
      ensures id !in popped <==> ReachesCycle(tasks, id)
    {
      if id in popped {
        OrderedIdsAvoidCycles(tasks, popped, id);
      } else {
        BlockedIdsReachCycles(tasks, left, id);
      }
    }
    CyclicIffSomeIdReachesCycle(tasks);
    assert Cyclic(tasks) <==> left != {} by {
      if left != {} { var x :| x in left; assert x in Ids(tasks) && ReachesCycle(tasks, x); }
      if Cyclic(tasks) { var x :| x in Ids(tasks) && ReachesCycle(tasks, x); assert x in left; }
    }
    DistinctCard(popped);
    SubsetCard(Elems(popped), Ids(tasks));
    UniqueIdsCard(tasks);
    assert left == {} ==> Ids(tasks) == Elems(popped);
  }

  lemma {:induction false} DependencyOrderBasics(tasks: seq<Task>, order: seq<string>)
    requires DependencyOrder(tasks, order)
    ensures Distinct(order) && Elems(order) <= Ids(tasks)
  {}

  lemma {:induction false} LeftoversBlockEachOther(tasks: seq<Task>, indeg: map<string, int>, popped: seq<string>)
    requires QueueState(Edges(tasks, Ids(tasks), |tasks|), Ids(tasks), indeg, popped, Elems(popped), multiset{})
    ensures NoWayOut(tasks, Ids(tasks) - Elems(popped))
  {
    var edges := Edges(tasks, Ids(tasks), |tasks|);
    var left := Ids(tasks) - Elems(popped);
    forall a | a in left
      ensures HasDependencyIn(tasks, left, a)
    {
      UnmetZero(edges, a, Elems(popped));
      var e :| e in edges && e.child == a && e.dep !in Elems(popped);
      EdgeIsDependency(tasks, e);
    }
  }

  // ---- The whole dependency report ---------------------------------------------------------------

  datatype Finding =
    | DuplicateIds
    | DuplicateDependencies(id: string)
    | SelfDependency(id: string)
    | MissingDependency(id: string, dep: string)
    | CycleOrUnreachable(ordered: nat, total: nat)

  /** What the script's documentation asks of the index, apart from the status notes. */
  ghost predicate CleanIndex(tasks: seq<Task>) {
    && UniqueIds(tasks)
    && (forall t :: t in tasks ==> Distinct(t.deps) && forall d :: d in t.deps ==> d in Ids(tasks) && d != t.id)
    && !Cyclic(tasks)
  }

  /** The dependency part of main: no finding is reported exactly for a clean index. */
  method Report(tasks: seq<Task>) returns (findings: seq<Finding>)
    ensures findings == [] <==> CleanIndex(tasks)
    ensures DuplicateIds in findings <==> exists i, j :: 0 <= i < j < |tasks| && tasks[i].id == tasks[j].id
    ensures forall f :: f in findings && !f.DuplicateIds? && !f.CycleOrUnreachable? <==> FoundIn(tasks, Ids(tasks), f)
    ensures forall n, m :: CycleOrUnreachable(n, m) in findings <==>
              n == |Orderable(tasks)| && m == |tasks| && !(UniqueIds(tasks) && !Cyclic(tasks))
  {
    hide Finds, FoundIn, CleanTask, Cyclic, ReachesCycle, DependencyOrder, Orderable;
    findings := [];
    UniqueIdsCard(tasks);
    var known := Ids(tasks);
    if |tasks| != |known| {
      findings := [DuplicateIds];
    }
    NothingFound(known);
    for i := 0 to |tasks|
      invariant findings == [] <==> UniqueIds(tasks) && forall k :: 0 <= k < i ==> CleanTask(tasks[k], known)
      invariant forall f :: f in findings <==> (f == DuplicateIds && |tasks| != |known|) || FoundIn(tasks[..i], known, f)
    {
      hide Ids, UniqueIds;
      FoundStep(tasks, known, i);
      var found := CheckTask(tasks[i], known);
      findings := findings + found;
    }
    assert tasks[..|tasks|] == tasks;
    FoundKinds(tasks, known);
    CleanParts(tasks);
    var ordered, popped := CheckOrder(tasks);
    OrderableAre(tasks, popped);
    hide Ids;
    if ordered != |tasks| {
      findings := findings + [CycleOrUnreachable(ordered, |tasks|)];
    }
  }

  lemma {:induction false} NothingFound(known: set<string>)
    ensures forall f :: !FoundIn([], known, f)
  {}

  lemma {:induction false} FoundStep(tasks: seq<Task>, known: set<string>, i: nat)
    requires i < |tasks|
    ensures forall f :: FoundIn(tasks[..i + 1], known, f) <==> FoundIn(tasks[..i], known, f) || Finds(tasks[i], known, f)
  {
    hide Finds;
    assert tasks[..i + 1] == tasks[..i] + [tasks[i]];
  }

  lemma {:induction false} FoundKinds(tasks: seq<Task>, known: set<string>)
    ensures forall f :: FoundIn(tasks, known, f) ==> !f.DuplicateIds? && !f.CycleOrUnreachable?
  {}

  lemma {:induction false} CleanParts(tasks: seq<Task>)
    ensures CleanIndex(tasks) <==>
            UniqueIds(tasks) && !Cyclic(tasks) && forall k :: 0 <= k < |tasks| ==> CleanTask(tasks[k], Ids(tasks))
  {
    hide UniqueIds, Cyclic, Ids;
    assert (forall k :: 0 <= k < |tasks| ==> CleanTask(tasks[k], Ids(tasks))) <==> forall t :: t in tasks ==> CleanTask(t, Ids(tasks));
  }

  /** The ids that reach no cycle. */
  ghost function Orderable(tasks: seq<Task>): set<string> { set id | id in Ids(tasks) && !ReachesCycle(tasks, id) }

  lemma {:induction false} OrderableAre(tasks: seq<Task>, popped: seq<string>)
    requires DependencyOrder(tasks, popped)
    requires forall id :: id in Ids(tasks) ==> (id !in popped <==> ReachesCycle(tasks, id))
    ensures |Orderable(tasks)| == |popped|
  {
    hide Ids, ReachesCycle;
    DependencyOrderBasics(tasks, popped);
    DistinctCard(popped);
    assert Orderable(tasks) == Elems(popped);
  }

  predicate CleanTask(t: Task, known: set<string>) {
    Distinct(t.deps) && forall d :: d in t.deps ==> d in known && d != t.id
  }

  /** What is reported of one record. */
  predicate Finds(t: Task, known: set<string>, f: Finding) {
    match f
    case DuplicateDependencies(id) => id == t.id && exists i, j :: 0 <= i < j < |t.deps| && t.deps[i] == t.deps[j]
    case SelfDependency(id) => id == t.id && t.id in t.deps
    case MissingDependency(id, d) => id == t.id && d in t.deps && d !in known
    case _ => false
  }

  ghost predicate FoundIn(tasks: seq<Task>, known: set<string>, f: Finding) { exists t :: t in tasks && Finds(t, known, f) }

  method CheckTask(t: Task, known: set<string>) returns (findings: seq<Finding>)
    ensures findings == [] <==> CleanTask(t, known)
    ensures forall f :: f in findings <==> Finds(t, known, f)
  {
    findings := [];
    DistinctCard(t.deps);
    if |t.deps| != |Elems(t.deps)| {
      findings := [DuplicateDependencies(t.id)];
    }
    if t.id in t.deps {
      findings := findings + [SelfDependency(t.id)];
    }
    assert t.deps[..|t.deps|] == t.deps;
    for j := 0 to |t.deps|
      invariant findings == [] <==>
                Distinct(t.deps) && t.id !in t.deps && forall k :: 0 <= k < j ==> t.deps[k] in known
      invariant forall f :: f in findings <==> Finds(t, known, f) && (f.MissingDependency? ==> f.dep in t.deps[..j])
    {
      assert t.deps[..j + 1] == t.deps[..j] + [t.deps[j]];
      if t.deps[j] !in known {
        findings := findings + [MissingDependency(t.id, t.deps[j])];
      }
    }
  }

  lemma {:induction false} UniqueIdsCard(tasks: seq<Task>)
    ensures |Ids(tasks)| <= |tasks|
    ensures UniqueIds(tasks) <==> |Ids(tasks)| == |tasks|
  {
    var ids := seq(|tasks|, i requires 0 <= i < |tasks| => tasks[i].id);
    DistinctCard(ids);
    IdsAsSequence(tasks, ids);
    hide Elems, Ids;
    assert Distinct(ids) <==> UniqueIds(tasks) by {
      assert forall i :: 0 <= i < |tasks| ==> ids[i] == tasks[i].id;
    }
  }

  lemma {:induction false} IdsAsSequence(tasks: seq<Task>, ids: seq<string>)
    requires |ids| == |tasks| && forall i :: 0 <= i < |tasks| ==> ids[i] == tasks[i].id
    ensures Elems(ids) == Ids(tasks)
  {
    forall x ensures x in Elems(ids) <==> x in Ids(tasks) {
      if x in Elems(ids) {
        var i :| 0 <= i < |ids| && ids[i] == x;
        assert tasks[i] in tasks;
      }
      if x in Ids(tasks) {
        var t :| t in tasks && t.id == x;
        var i :| 0 <= i < |tasks| && tasks[i] == t;
        assert ids[i] == x;
      }
    }
  }

  // ---- A clean index is one that can be worked off ------------------------------------------------------------------

  /** The tasks in an order in which each finds all its dependencies before it, none listed twice. */
  ghost predicate WorkOrder(order: seq<Task>) {
    && (forall i, j :: 0 <= i < j < |order| ==> order[i].id != order[j].id)
    && (forall i, d :: 0 <= i < |order| && d in order[i].deps ==> exists j :: 0 <= j < i && order[j].id == d)
    && (forall i, a, b :: 0 <= i < |order| && 0 <= a < b < |order[i].deps| ==> order[i].deps[a] != order[i].deps[b])
  }

  /** The checks accept exactly the indexes whose tasks can be arranged like that. */
  lemma {:induction false} CleanIffWorkable(tasks: seq<Task>)
    ensures CleanIndex(tasks) <==> exists order :: multiset(order) == multiset(tasks) && WorkOrder(order)
  {
    hide CleanIndex, WorkOrder;
    if CleanIndex(tasks) {
      NothingDone();
      var order := Arrange(tasks, []);
    }
    if order :| multiset(order) == multiset(tasks) && WorkOrder(order) { WorkableIsClean(tasks, order); }
  }

  lemma {:induction false} NothingDone()
    ensures WorkOrder([])
  {}

  lemma {:induction false} Arrange(tasks: seq<Task>, done: seq<Task>) returns (order: seq<Task>)
    requires CleanIndex(tasks) && WorkOrder(done) && multiset(done) <= multiset(tasks)
    ensures multiset(order) == multiset(tasks) && WorkOrder(order)
    decreases |tasks| - |done|
  {
    assert |multiset(done)| == |done| && |multiset(tasks)| == |tasks|;
    assert multiset(tasks) == multiset(done) + (multiset(tasks) - multiset(done));
    if |done| >= |tasks| {
      order := done;
    } else {
      var t := NextTask(tasks, done);
      ExtendWorkOrder(done, t);
      assert multiset(done + [t]) <= multiset(tasks) by { OneMoreTask(tasks, done, t); }
      hide CleanIndex, WorkOrder;
      assert |done + [t]| == |done| + 1;
      order := Arrange(tasks, done + [t]);
    }
  }

  lemma {:induction false} OneMoreTask(tasks: seq<Task>, done: seq<Task>, t: Task)
    requires multiset(done) <= multiset(tasks) && t in tasks && t !in done
    ensures multiset(done + [t]) <= multiset(tasks)
  {
    assert multiset(done)[t] == 0 && multiset(tasks)[t] > 0;
  }

  /** Some task that is left has none of its dependencies left. */
  lemma {:induction false} NextTask(tasks: seq<Task>, done: seq<Task>) returns (t: Task)
    requires CleanIndex(tasks) && WorkOrder(done) && multiset(done) <= multiset(tasks) && |done| < |tasks|
    ensures t in tasks && t !in done && Distinct(t.deps)
    ensures (forall s :: s in done ==> s.id != t.id) && forall d :: d in t.deps ==> exists s :: s in done && s.id == d
  {
    hide WorkOrder, Cyclic, UniqueIds;
    SomeLeft(tasks, done);
    var a := FreeId(tasks, Ids(tasks) - Ids(done));
    t :| t in tasks && t.id == a;
    forall d | d in t.deps ensures exists s :: s in done && s.id == d {
      assert DependsOn(tasks, a, d);
      assert d in Ids(done);
    }
  }

  lemma {:induction false} FreeId(tasks: seq<Task>, left: set<string>) returns (a: string)
    requires !Cyclic(tasks) && left <= Ids(tasks) && left != {}
    ensures a in left && forall d :: d in left ==> !DependsOn(tasks, a, d)
  {
    hide Cyclic, ReachesCycle, DependsOn;
    var x :| x in left;
    CyclicIffSomeIdReachesCycle(tasks);
    assert !NoWayOut(tasks, left) by {
      if NoWayOut(tasks, left) { BlockedIdsReachCycles(tasks, left, x); }
    }
    a :| a in left && !HasDependencyIn(tasks, left, a);
  }

  lemma {:induction false} SomeLeft(tasks: seq<Task>, done: seq<Task>)
    requires UniqueIds(tasks) && |done| < |tasks|
    ensures Ids(tasks) - Ids(done) != {}
  {
    UniqueIdsCard(tasks);
    UniqueIdsCard(done);
    if Ids(tasks) <= Ids(done) { SubsetCard(Ids(tasks), Ids(done)); }
    var x :| x in Ids(tasks) && x !in Ids(done);
    assert x in Ids(tasks) - Ids(done);
  }

  lemma {:induction false} ExtendWorkOrder(done: seq<Task>, t: Task)
    requires WorkOrder(done) && Distinct(t.deps)
    requires (forall s :: s in done ==> s.id != t.id) && forall d :: d in t.deps ==> exists s :: s in done && s.id == d
    ensures WorkOrder(done + [t])
  {
    var order := done + [t];
    forall i, d | 0 <= i < |order| && d in order[i].deps ensures exists j :: 0 <= j < i && order[j].id == d {
      if i < |done| {
        assert d in done[i].deps;
        var j :| 0 <= j < i && done[j].id == d;
        assert order[j].id == d;
      } else {
        var s :| s in done && s.id == d;
        var j :| 0 <= j < |done| && done[j] == s;
        assert order[j].id == d;
      }
    }
  }

  lemma {:induction false} WorkableIsClean(tasks: seq<Task>, order: seq<Task>)
    requires multiset(order) == multiset(tasks) && WorkOrder(order)
    ensures CleanIndex(tasks)
  {
    SameTasks(tasks, order);
    UniqueIdsCard(tasks);
    UniqueIdsCard(order);
    assert Ids(tasks) == Ids(order);
    assert |multiset(order)| == |order| && |multiset(tasks)| == |tasks|;
    var ids := seq(|order|, i requires 0 <= i < |order| => order[i].id);
    WorkOrderIsDependencyOrder(tasks, order, ids);
    forall x | x in Ids(tasks) ensures !ReachesCycle(tasks, x) {
      var t :| t in order && t.id == x;
      var i :| 0 <= i < |order| && order[i] == t;
      assert ids[i] == x;
      OrderedIdsAvoidCycles(tasks, ids, x);
    }
    CyclicIffSomeIdReachesCycle(tasks);
    forall t, d | t in tasks && d in t.deps ensures d in Ids(tasks) && d != t.id {
      var i :| 0 <= i < |order| && order[i] == t;
      var j :| 0 <= j < i && order[j].id == d;
      assert order[j] in order;
    }
    forall t | t in tasks ensures Distinct(t.deps) { var i :| 0 <= i < |order| && order[i] == t; }
  }

  lemma {:induction false} SameTasks(tasks: seq<Task>, order: seq<Task>)
    requires multiset(order) == multiset(tasks)
    ensures forall t :: t in tasks <==> t in order
  {
    forall t ensures t in tasks <==> t in order { assert t in multiset(tasks) <==> t in multiset(order); }
  }

  lemma {:induction false} WorkOrderIsDependencyOrder(tasks: seq<Task>, order: seq<Task>, ids: seq<string>)
    requires WorkOrder(order) && (forall t :: t in tasks <==> t in order)
    requires |ids| == |order| && forall i :: 0 <= i < |order| ==> ids[i] == order[i].id
    ensures DependencyOrder(tasks, ids)
  {
    forall x | x in ids ensures x in Ids(tasks) {
      var i :| 0 <= i < |ids| && ids[i] == x;
      assert order[i] in tasks;
    }
    forall i, d | 0 <= i < |ids| && DependsOn(tasks, ids[i], d) ensures d in ids[..i] {
      var t :| t in tasks && t.id == ids[i] && d in t.deps;
      var k :| 0 <= k < |order| && order[k] == t;
      assert k == i;
      var j :| 0 <= j < i && order[j].id == d;
      assert ids[..i][j] == d;
    }
  }
}
