/** Cohorts that refer to other cohorts, and the check that guards every update against loops. */
module Cohorts {
  import opened Wrappers
  import opened ReferenceGraph

  /** The raw value of a cohort filter. JSON may carry a primary key as a number or as text, and the text
      with any number of leading zeros; the row lookup resolves them all, while set membership tells them
      apart. */
  datatype Ref = Id(pk: int) | Text(pk: int, zeros: nat)

  datatype Cohort = Cohort(team: int, refs: seq<Ref>)

  type Rows = map<int, Cohort>

  datatype LoopCheck = NoLoop | Loop | InvalidId

  // ----- specification -----

  /** The rows that a lookup restricted to one team can see. */
  function TeamRows(rows: Rows, team: int): map<int, seq<Ref>> {
    map n | n in rows && rows[n].team == team :: rows[n].refs
  }

  function Targets(refs: seq<Ref>): seq<int> {
    seq(|refs|, i requires 0 <= i < |refs| => refs[i].pk)
  }

  /** Which stored cohort refers to which. */
  function SavedGraph(saved: map<int, seq<Ref>>): Graph<int> {
    map n | n in saved :: Targets(saved[n])
  }

  /** The references of all cohorts, as they are written. */
  function Written(saved: map<int, seq<Ref>>, refs: seq<Ref>): set<Ref> {
    (set r | r in refs) + (set n, r | n in saved && r in saved[n] :: r)
  }

  /** The graph that the search walks: raw values, with the edited references for the root only. */
  function SearchGraph(saved: map<int, seq<Ref>>, pk: int, refs: seq<Ref>): Graph<Ref> {
    var nodes := (set r | r in Written(saved, refs) && r.pk in saved) + {Id(pk)};
    map r | r in nodes :: if r == Id(pk) then refs else saved[r.pk]
  }

  ghost predicate AllResolve<T(!new)>(g: Graph<T>, root: T) {
    root in g && forall r :: Reaches(g, root, r) ==> r in g
  }

  /** t is the i-th reference written on s, and the search can get to s. */
  ghost predicate Occurs<T(!new)>(g: Graph<T>, root: T, s: T, i: nat, t: T) {
    (s == root || Reaches(g, root, s)) && s in g && i < |g[s]| && g[s][i] == t
  }

  /** The reachable part of the graph is a tree: nothing refers to the root and every other node is
      written exactly once. */
  ghost predicate UniquelyReferenced<T(!new)>(g: Graph<T>, root: T) {
    !Reaches(g, root, root) && NothingShared(g, root)
  }

  /** No two references that the search can get to name the same node. */
  ghost predicate NothingShared<T(!new)>(g: Graph<T>, root: T) {
    forall s1, i1, s2, i2, t {:trigger Occurs(g, root, s1, i1, t), Occurs(g, root, s2, i2, t)} ::
      Occurs(g, root, s1, i1, t) && Occurs(g, root, s2, i2, t) ==> s1 == s2 && i1 == i2
  }

  /** When the check lets an update through. */
  ghost predicate Accepts(saved: map<int, seq<Ref>>, pk: int, refs: seq<Ref>) {
    var g := SearchGraph(saved, pk, refs);
    AllResolve(g, Id(pk)) && UniquelyReferenced(g, Id(pk))
  }

  // ----- counting references -----

  /** All references written on the given nodes. */
  function AllRefs<T>(g: Graph<T>, vs: seq<T>): seq<T>
    requires forall v :: v in vs ==> v in g
  {
    if vs == [] then [] else AllRefs(g, vs[..|vs| - 1]) + g[vs[|vs| - 1]]
  }

  ghost predicate Distinct<T>(s: seq<T>) {
    forall i, j :: 0 <= i < j < |s| ==> s[i] != s[j]
  }

  lemma {:induction false} RefSource<T(!new)>(g: Graph<T>, vs: seq<T>, t: T) returns (s: T, i: nat)
    requires forall v :: v in vs ==> v in g
    requires t in AllRefs(g, vs)
    ensures s in vs && i < |g[s]| && g[s][i] == t
  {
    var last := vs[|vs| - 1];
    if t in g[last] {
      s := last;
      i :| 0 <= i < |g[last]| && g[last][i] == t;
    } else {
      s, i := RefSource(g, vs[..|vs| - 1], t);
    }
  }

  lemma {:induction false} RefCounted<T(!new)>(g: Graph<T>, vs: seq<T>, s: T, i: nat)
    requires forall v :: v in vs ==> v in g
    requires s in vs && i < |g[s]|
    ensures g[s][i] in AllRefs(g, vs)
  {
    if s != vs[|vs| - 1] {
      RefCounted(g, vs[..|vs| - 1], s, i);
    }
  }

  lemma RepeatedElement<T>(s: seq<T>, t: T) returns (i: nat, j: nat)
    requires multiset(s)[t] >= 2
    ensures i < j < |s| && s[i] == t && s[j] == t
  {
    i :| 0 <= i < |s| && s[i] == t;
    assert s == s[..i] + [t] + s[i + 1..];
    if t in s[..i] {
      var k :| 0 <= k < i && s[k] == t;
      i, j := k, i;
    } else {
      assert multiset(s) == multiset(s[..i]) + multiset{t} + multiset(s[i + 1..]);
      assert t in s[i + 1..];
      j :| i < j < |s| && s[j] == t;
    }
  }

  lemma ElementsCounted<T>(s: seq<T>, i: nat, j: nat)
    requires i < j < |s| && s[i] == s[j]
    ensures multiset(s)[s[i]] >= 2
  {
    assert s == s[..i] + [s[i]] + s[i + 1..j] + [s[j]] + s[j + 1..];
  }

  /** A target counted twice is written in two places. */
  lemma {:induction false} TwoSources<T(!new)>(g: Graph<T>, vs: seq<T>, t: T)
    returns (s1: T, i1: nat, s2: T, i2: nat)
    requires forall v :: v in vs ==> v in g
    requires Distinct(vs)
    requires multiset(AllRefs(g, vs))[t] >= 2
    ensures s1 in vs && i1 < |g[s1]| && g[s1][i1] == t
    ensures s2 in vs && i2 < |g[s2]| && g[s2][i2] == t
    ensures s1 != s2 || i1 != i2
  {
    var init, last := vs[..|vs| - 1], vs[|vs| - 1];
    assert multiset(AllRefs(g, vs)) == multiset(AllRefs(g, init)) + multiset(g[last]);
    if multiset(AllRefs(g, init))[t] >= 2 {
      s1, i1, s2, i2 := TwoSources(g, init, t);
    } else if multiset(g[last])[t] >= 2 {
      i1, i2 := RepeatedElement(g[last], t);
      s1, s2 := last, last;
    } else {
      assert t in AllRefs(g, init) && t in g[last];
      s1, i1 := RefSource(g, init, t);
      s2 := last;
      i2 :| 0 <= i2 < |g[last]| && g[last][i2] == t;
    }
  }

  /** A target counted at most once is written in one place. */
  lemma {:induction false} OneSource<T(!new)>(g: Graph<T>, vs: seq<T>, s1: T, i1: nat, s2: T, i2: nat)
    requires forall v :: v in vs ==> v in g
    requires s1 in vs && i1 < |g[s1]| && s2 in vs && i2 < |g[s2]| && g[s1][i1] == g[s2][i2]
    requires multiset(AllRefs(g, vs))[g[s1][i1]] <= 1
    ensures s1 == s2 && i1 == i2
  {
    var init, last, t := vs[..|vs| - 1], vs[|vs| - 1], g[s1][i1];
    assert multiset(AllRefs(g, vs)) == multiset(AllRefs(g, init)) + multiset(g[last]);
    if s1 == last && s2 == last {
      if i1 < i2 {
        ElementsCounted(g[last], i1, i2);
      } else if i2 < i1 {
        ElementsCounted(g[last], i2, i1);
      }
    } else {
      if s1 in init { RefCounted(g, init, s1, i1); }
      if s2 in init { RefCounted(g, init, s2, i2); }
      if s1 in init && s2 in init {
        OneSource(g, init, s1, i1, s2, i2);
      }
    }
  }

  // ----- the search -----

  /** What the search knows: every reference written on a visited node is either the reason that a
      node was visited or still waiting, and the root is visited for no reference at all. */
  ghost predicate SearchState<T(!new)>(g: Graph<T>, root: T, visited: seq<T>, waiting: seq<T>) {
    && (forall v :: v in visited ==> v in g && (v == root || Reaches(g, root, v)))
    && (forall w :: w in waiting ==> Reaches(g, root, w))
    && root in visited
    && Distinct(visited)
    && multiset(visited) + multiset(waiting) == multiset{root} + multiset(AllRefs(g, visited))
  }

  lemma VisitedOnce<T>(visited: seq<T>, t: T)
    requires Distinct(visited)
    ensures multiset(visited)[t] <= 1
  {
    if multiset(visited)[t] >= 2 {
      var i, j := RepeatedElement(visited, t);
    }
  }

  lemma ReachedNext<T(!new)>(g: Graph<T>, root: T, s: T, t: T)
    requires s == root || Reaches(g, root, s)
    requires Edge(g, s, t)
    ensures Reaches(g, root, t)
  {
    EdgeReaches(g, s, t);
    if s != root {
      ReachesTransitive(g, root, s, t);
    }
  }

  /** Meeting a visited node again means that the reachable graph is no tree. */
  lemma SeenAgain<T(!new)>(g: Graph<T>, root: T, visited: seq<T>, waiting: seq<T>, t: T)
    requires SearchState(g, root, visited, waiting)
    requires t in visited && t in waiting
    ensures !UniquelyReferenced(g, root)
  {
    assert (multiset(visited) + multiset(waiting))[t] >= 2;
    if t == root {
      var s, i := RefSource(g, visited, t);
      ReachedNext(g, root, s, t);
    } else {
      var s1, i1, s2, i2 := TwoSources(g, visited, t);
      assert Occurs(g, root, s1, i1, t) && Occurs(g, root, s2, i2, t);
    }
  }

  /** Nothing left to visit means that the reachable graph is a tree. */
  lemma SearchComplete<T(!new)>(g: Graph<T>, root: T, visited: seq<T>)
    requires SearchState(g, root, visited, [])
    ensures AllResolve(g, root) && UniquelyReferenced(g, root)
  {
    var reached := (set v | v in visited) - {root};
    VisitedOnce(visited, root);
    forall x, y | (x == root || x in reached) && Edge(g, x, y)
      ensures y in reached
    {
      var i :| 0 <= i < |g[x]| && g[x][i] == y;
      RefCounted(g, visited, x, i);
      assert (multiset(visited) + multiset([]))[y] >= 1;
      assert y in visited;
    }
    ClosedSetContainsReachable(g, root, reached);
    forall s1, i1, s2, i2, t | Occurs(g, root, s1, i1, t) && Occurs(g, root, s2, i2, t)
      ensures s1 == s2 && i1 == i2
    {
      VisitedOnce(visited, t);
      assert (multiset{root} + multiset(AllRefs(g, visited)))[t] == (multiset(visited) + multiset([]))[t];
      OneSource(g, visited, s1, i1, s2, i2);
    }
  }

  lemma SearchStart<T(!new)>(g: Graph<T>, root: T)
    requires root in g
    ensures SearchState(g, root, [root], g[root])
  {
    forall r | r in g[root]
      ensures Reaches(g, root, r)
    {
      EdgeReaches(g, root, r);
    }
    assert AllRefs(g, [root]) == AllRefs(g, []) + g[root] == g[root];
  }

  /** Visiting a node moves its references to the waiting list. */
  lemma VisitNext<T(!new)>(g: Graph<T>, root: T, visited: seq<T>, waiting: seq<T>, t: T)
    requires SearchState(g, root, visited, waiting + [t])
    requires t !in visited && t in g
    ensures SearchState(g, root, visited + [t], waiting + g[t])
  {
    assert (visited + [t])[..|visited|] == visited;
    assert AllRefs(g, visited + [t]) == AllRefs(g, visited) + g[t];
    calc {
      multiset(visited + [t]) + multiset(waiting + g[t]);
      (multiset(visited) + multiset(waiting + [t])) + multiset(g[t]);
      (multiset{root} + multiset(AllRefs(g, visited))) + multiset(g[t]);
      multiset{root} + multiset(AllRefs(g, visited) + g[t]);
    }
    assert t in waiting + [t];
    forall w | w in waiting + g[t]
      ensures Reaches(g, root, w)
    {
      if w in waiting {
        assert w in waiting + [t];
      } else {
        ReachedNext(g, root, t, w);
      }
    }
  }

  // ----- what an accepted update means -----

  /** The set of rows that the search can get to. */
  ghost function ReachedRows(g: Graph<Ref>, root: Ref): set<int> {
    set r | r in g.Keys && Reaches(g, root, r) :: r.pk
  }

  /** A walk of the search, up to the first time it is back at the row it started from, is a walk
      of the graph that the update would store. */
  lemma SearchWalkIsSavedWalk(saved: map<int, seq<Ref>>, pk: int, refs: seq<Ref>, r: Ref)
    requires pk in saved
    requires Reaches(SearchGraph(saved, pk, refs), Id(pk), r) && r.pk == pk
    ensures Reaches(SavedGraph(saved[pk := refs]), pk, pk)
  {
    var g, h := SearchGraph(saved, pk, refs), SavedGraph(saved[pk := refs]);
    var p: seq<Ref> :| IsWalkBetween(g, p, Id(pk), r);
    var i := 1;
    assert Edge(g, p[0], p[1]);
    RefBecomesEdge(saved[pk := refs], pk, p[1]);
    EdgeReaches(h, pk, p[1].pk);
    while p[i].pk != pk
      invariant 1 <= i < |p|
      invariant Reaches(h, pk, p[i].pk)
      decreases |p| - i
    {
      assert Edge(g, p[i], p[i + 1]);
      RefBecomesEdge(saved[pk := refs], p[i].pk, p[i + 1]);
      EdgeReaches(h, p[i].pk, p[i + 1].pk);
      ReachesTransitive(h, pk, p[i].pk, p[i + 1].pk);
      i := i + 1;
    }
  }

  lemma RefBecomesEdge(saved: map<int, seq<Ref>>, n: int, r: Ref)
    requires n in saved && r in saved[n]
    ensures Edge(SavedGraph(saved), n, r.pk)
  {
    var i :| 0 <= i < |saved[n]| && saved[n][i] == r;
    assert Targets(saved[n])[i] == r.pk;
  }

  lemma EdgeComesFromRef(saved: map<int, seq<Ref>>, n: int, m: int) returns (r: Ref)
    requires Edge(SavedGraph(saved), n, m)
    ensures r in saved[n] && r.pk == m
  {
    var i :| 0 <= i < |saved[n]| && Targets(saved[n])[i] == m;
    r := saved[n][i];
  }

  /** If the search never comes back to the row it started from, neither does the stored graph. */
  lemma SavedWalkIsSearchWalk(saved: map<int, seq<Ref>>, pk: int, refs: seq<Ref>)
    requires pk in saved
    requires AllResolve(SearchGraph(saved, pk, refs), Id(pk))
    requires forall r :: Reaches(SearchGraph(saved, pk, refs), Id(pk), r) ==> r.pk != pk
    ensures !Reaches(SavedGraph(saved[pk := refs]), pk, pk)
  {
    var g, root, h := SearchGraph(saved, pk, refs), Id(pk), SavedGraph(saved[pk := refs]);
    var rows := ReachedRows(g, root);
    forall x, y | (x == pk || x in rows) && Edge(h, x, y)
      ensures y in rows
    {
      var t := EdgeComesFromRef(saved[pk := refs], x, y);
      var s := root;
      if x != pk {
        s :| s in g.Keys && Reaches(g, root, s) && s.pk == x;
      }
      ReachedNext(g, root, s, t);
    }
    ClosedSetContainsReachable(h, pk, rows);
  }

  /** The search gets to the edited cohort by a text value. */
  ghost predicate MeetsText(saved: map<int, seq<Ref>>, pk: int, refs: seq<Ref>) {
    exists zeros :: Reaches(SearchGraph(saved, pk, refs), Id(pk), Text(pk, zeros))
  }

  /** An accepted update keeps the stored graph acyclic if and only if the edited cohort is not
      named, by a text value, among the references that the search visits. */
  lemma AcceptedUpdate(saved: map<int, seq<Ref>>, pk: int, refs: seq<Ref>)
    requires pk in saved && Acyclic(SavedGraph(saved))
    requires Accepts(saved, pk, refs)
    ensures Acyclic(SavedGraph(saved[pk := refs])) <==> !MeetsText(saved, pk, refs)
  {
    var g, root := SearchGraph(saved, pk, refs), Id(pk);
    var before, after := SavedGraph(saved), SavedGraph(saved[pk := refs]);
    if zeros :| Reaches(g, root, Text(pk, zeros)) {
      SearchWalkIsSavedWalk(saved, pk, refs, Text(pk, zeros));
    } else {
      forall r | Reaches(g, root, r)
        ensures r.pk != pk
      {
        assert r == Id(r.pk) || r == Text(r.pk, r.zeros);
      }
      SavedWalkIsSearchWalk(saved, pk, refs);
      NewCycleThroughChangedNode(before, after, pk);
    }
  }

  /** Every cycle that the search could get to makes it report a loop. */
  lemma ReachableCycleIsReported<T(!new)>(g: Graph<T>, root: T, n: T)
    requires n == root || Reaches(g, root, n)
    requires Reaches(g, n, n)
    ensures !UniquelyReferenced(g, root)
  {
    if UniquelyReferenced(g, root) {
      var p :| IsWalkBetween(g, p, root, n);
      // The first node of p that lies on a cycle with n is entered from outside and from inside.
      var i := 0;
      while i < |p| - 1 && !(Reaches(g, n, p[i]) && Reaches(g, p[i], n))
        invariant 0 <= i < |p|
        invariant i > 0 ==> !(Reaches(g, n, p[i - 1]) && Reaches(g, p[i - 1], n))
      {
        i := i + 1;
      }
      if i == 0 {
        ReachesTransitive(g, root, n, root);
      } else {
        CycleEnteredTwice(g, root, n, p, i);
      }
    }
  }

  /** The node before p[i] on a cycle through n and p[i]. */
  lemma CyclePredecessor<T(!new)>(g: Graph<T>, n: T, t: T) returns (s: T)
    requires Reaches(g, n, t) && Reaches(g, t, n)
    ensures Edge(g, s, t) && Reaches(g, n, s) && Reaches(g, s, n)
  {
    ReachesTransitive(g, n, t, n);
    var p :| IsWalkBetween(g, p, n, t);
    s := p[|p| - 2];
    assert Edge(g, s, p[|p| - 1]);
    EdgeReaches(g, s, t);
    ReachesTransitive(g, s, t, n);
    if |p| > 2 {
      WalkReaches(g, p, 0, |p| - 2);
    }
  }

  lemma CycleEnteredTwice<T(!new)>(g: Graph<T>, root: T, n: T, p: seq<T>, i: nat)
    requires IsWalkBetween(g, p, root, n) && 0 < i < |p|
    requires Reaches(g, n, p[i]) && Reaches(g, p[i], n)
    requires !(Reaches(g, n, p[i - 1]) && Reaches(g, p[i - 1], n))
    ensures !UniquelyReferenced(g, root)
  {
    var t, outside := p[i], p[i - 1];
    var inside := CyclePredecessor(g, n, t);
    assert Edge(g, outside, t);
    WalkReaches(g, p, 0, |p| - 1);
    ReachesTransitive(g, root, n, inside);
    if i > 1 {
      WalkReaches(g, p, 0, i - 1);
    }
    var j :| 0 <= j < |g[outside]| && g[outside][j] == t;
    var k :| 0 <= k < |g[inside]| && g[inside][k] == t;
    assert Occurs(g, root, outside, j, t) && Occurs(g, root, inside, k, t);
    assert outside != inside;
  }

  // ----- runs of creates and updates -----

  datatype Action =
    | Create(pk: int, team: int, refs: seq<Ref>)
    | Update(pk: int, newRefs: Option<seq<Ref>>)

  /** The rows after a request. A create is never checked; an update is stored only if accepted. */
  ghost function After(rows: Rows, a: Action): Rows {
    match a
    case Create(pk, team, refs) => rows[pk := Cohort(team, refs)]
    case Update(pk, newRefs) =>
      if pk !in rows then rows else
      var refs := newRefs.GetOr(rows[pk].refs);
      if Accepts(TeamRows(rows, rows[pk].team), pk, refs) then rows[pk := Cohort(rows[pk].team, refs)] else rows
  }

  /** The database hands out a new key; references are numbers, and a create names stored cohorts. */
  ghost predicate Admissible(rows: Rows, a: Action) {
    match a
    case Create(pk, team, refs) =>
      pk !in rows && forall r :: r in refs ==> r.Id? && r.pk in rows && rows[r.pk].team == team
    case Update(pk, newRefs) =>
      pk in rows && forall r :: newRefs.Some? && r in newRefs.value ==> r.Id?
  }

  ghost function Run(rows: Rows, actions: seq<Action>): Rows
    decreases |actions|
  {
    if actions == [] then rows else Run(After(rows, actions[0]), actions[1..])
  }

  ghost predicate AdmissibleRun(rows: Rows, actions: seq<Action>)
    decreases |actions|
  {
    actions == [] || (Admissible(rows, actions[0]) && AdmissibleRun(After(rows, actions[0]), actions[1..]))
  }

  ghost predicate Closed(rows: Rows) {
    forall n, r :: n in rows && r in rows[n].refs ==> r.Id? && r.pk in rows && rows[r.pk].team == rows[n].team
  }

  ghost predicate Sound(rows: Rows) {
    Closed(rows) && forall team :: Acyclic(SavedGraph(TeamRows(rows, team)))
  }

  /** A create keeps the stored graph acyclic if and only if no reference is, or leads to, the key
      that the new cohort gets. Nothing checks this: it depends on stored references to absent keys. */
  lemma CreateExactly(saved: map<int, seq<Ref>>, pk: int, refs: seq<Ref>)
    requires pk !in saved && Acyclic(SavedGraph(saved))
    ensures Acyclic(SavedGraph(saved[pk := refs])) <==>
            forall r :: r in refs ==> r.pk != pk && !Reaches(SavedGraph(saved), r.pk, pk)
  {
    var g, h := SavedGraph(saved), SavedGraph(saved[pk := refs]);
    if r :| r in refs && (r.pk == pk || Reaches(g, r.pk, pk)) {
      RefBecomesEdge(saved[pk := refs], pk, r);
      EdgeReaches(h, pk, r.pk);
      if r.pk != pk {
        ReachesMonotone(g, h, r.pk, pk);
        ReachesTransitive(h, pk, r.pk, pk);
      }
      assert Reaches(h, pk, pk);
    } else {
      if Reaches(h, pk, pk) {
        ReachesStep(h, pk, pk);
        var b :| Edge(h, pk, b) && (b == pk || Reaches(h, b, pk));
        var r := EdgeComesFromRef(saved[pk := refs], pk, b);
        FirstArrival(g, h, b, pk);
      }
      NewCycleThroughChangedNode(g, h, pk);
    }
  }

  /** A graph in which every reference is stored leads to stored cohorts only. */
  lemma ReachesStored(g: Graph<int>, a: int, b: int)
    requires forall x, y :: Edge(g, x, y) ==> y in g
    requires Reaches(g, a, b)
    ensures b in g
  {
    var stored := g.Keys;
    assert forall x, y :: Edge(g, x, y) ==> y in stored;
    ClosedSetContainsReachable(g, a, stored);
  }

  lemma CreateKeepsSound(rows: Rows, pk: int, team: int, refs: seq<Ref>)
    requires Sound(rows) && Admissible(rows, Create(pk, team, refs))
    ensures Sound(After(rows, Create(pk, team, refs)))
  {
    var rows' := rows[pk := Cohort(team, refs)];
    forall t
      ensures Acyclic(SavedGraph(TeamRows(rows', t)))
    {
      var saved := TeamRows(rows, t);
      var g := SavedGraph(saved);
      if t == team {
        forall x, y | Edge(g, x, y)
          ensures y in g
        {
          var r := EdgeComesFromRef(saved, x, y);
        }
        forall r | r in refs
          ensures !Reaches(g, r.pk, pk)
        {
          if Reaches(g, r.pk, pk) { ReachesStored(g, r.pk, pk); }
        }
        CreateExactly(saved, pk, refs);
        assert TeamRows(rows', t) == saved[pk := refs];
      } else {
        assert TeamRows(rows', t) == saved;
      }
    }
  }

  lemma SearchSeesNumbersOnly(saved: map<int, seq<Ref>>, pk: int, refs: seq<Ref>, r: Ref)
    requires forall n, t :: n in saved && t in saved[n] ==> t.Id?
    requires forall t :: t in refs ==> t.Id?
    requires Reaches(SearchGraph(saved, pk, refs), Id(pk), r)
    ensures r.Id?
  {
    var p: seq<Ref> :| IsWalkBetween(SearchGraph(saved, pk, refs), p, Id(pk), r);
    assert Edge(SearchGraph(saved, pk, refs), p[|p| - 2], p[|p| - 1]);
  }

  lemma AcceptedReferencesExist(saved: map<int, seq<Ref>>, pk: int, refs: seq<Ref>, r: Ref)
    requires pk in saved && Accepts(saved, pk, refs) && r in refs
    ensures r.pk in saved
  {
    EdgeReaches(SearchGraph(saved, pk, refs), Id(pk), r);
  }

  lemma TeamRowsAfterEdit(rows: Rows, pk: int, refs: seq<Ref>, t: int)
    requires pk in rows
    ensures var rows' := rows[pk := Cohort(rows[pk].team, refs)];
            TeamRows(rows', t) == if t == rows[pk].team then TeamRows(rows, t)[pk := refs] else TeamRows(rows, t)
  {
  }

  lemma AcceptedUpdateKeepsTeamAcyclic(saved: map<int, seq<Ref>>, pk: int, refs: seq<Ref>)
    requires forall n, t :: n in saved && t in saved[n] ==> t.Id?
    requires forall t :: t in refs ==> t.Id?
    requires pk in saved && Acyclic(SavedGraph(saved)) && Accepts(saved, pk, refs)
    ensures Acyclic(SavedGraph(saved[pk := refs]))
  {
    AcceptedUpdate(saved, pk, refs);
    if zeros :| Reaches(SearchGraph(saved, pk, refs), Id(pk), Text(pk, zeros)) {
      SearchSeesNumbersOnly(saved, pk, refs, Text(pk, zeros));
    }
  }

  /** Where every reference is a stored number, the check accepts exactly the updates that make no
      loop and share no reference: shared references are its only false alarms. */
  lemma AcceptsExactly(saved: map<int, seq<Ref>>, pk: int, refs: seq<Ref>)
    requires forall n, t :: n in saved && t in saved[n] ==> t.Id?
    requires forall t :: t in refs ==> t.Id?
    requires pk in saved && Acyclic(SavedGraph(saved))
    requires AllResolve(SearchGraph(saved, pk, refs), Id(pk))
    ensures Accepts(saved, pk, refs) <==>
            Acyclic(SavedGraph(saved[pk := refs])) && NothingShared(SearchGraph(saved, pk, refs), Id(pk))
  {
    if Accepts(saved, pk, refs) {
      AcceptedUpdateKeepsTeamAcyclic(saved, pk, refs);
    } else if Reaches(SearchGraph(saved, pk, refs), Id(pk), Id(pk)) {
      SearchWalkIsSavedWalk(saved, pk, refs, Id(pk));
    }
  }

  lemma AcceptedUpdateKeepsClosed(rows: Rows, pk: int, refs: seq<Ref>)
    requires Closed(rows) && pk in rows
    requires forall t :: t in refs ==> t.Id?
    requires Accepts(TeamRows(rows, rows[pk].team), pk, refs)
    ensures Closed(rows[pk := Cohort(rows[pk].team, refs)])
  {
    var saved := TeamRows(rows, rows[pk].team);
    forall r | r in refs
      ensures r.pk in saved
    {
      AcceptedReferencesExist(saved, pk, refs, r);
    }
  }

  lemma UpdateKeepsSound(rows: Rows, pk: int, newRefs: Option<seq<Ref>>)
    requires Sound(rows) && Admissible(rows, Update(pk, newRefs))
    ensures Sound(After(rows, Update(pk, newRefs)))
  {
    var refs, team := newRefs.GetOr(rows[pk].refs), rows[pk].team;
    assert forall t :: t in refs ==> t.Id?;
    if Accepts(TeamRows(rows, team), pk, refs) {
      AcceptedUpdateKeepsClosed(rows, pk, refs);
      var rows' := rows[pk := Cohort(team, refs)];
      forall t
        ensures Acyclic(SavedGraph(TeamRows(rows', t)))
      {
        TeamRowsAfterEdit(rows, pk, refs, t);
        if t == team {
          AcceptedUpdateKeepsTeamAcyclic(TeamRows(rows, team), pk, refs);
        }
      }
    }
  }

  /** However many cohorts are created and however they are edited, no team ever has a loop. */
  lemma {:induction false} RunsStayAcyclic(rows: Rows, actions: seq<Action>)
    requires Sound(rows) && AdmissibleRun(rows, actions)
    ensures Sound(Run(rows, actions))
    decreases |actions|
  {
    if actions == [] {
    } else {
      match actions[0] {
        case Create(pk, team, refs) => CreateKeepsSound(rows, pk, team, refs);
        case Update(pk, newRefs) => UpdateKeepsSound(rows, pk, newRefs);
      }
      RunsStayAcyclic(After(rows, actions[0]), actions[1..]);
    }
  }

  lemma EmptyTableIsSound()
    ensures Sound(map[])
  {
    forall team
      ensures Acyclic(SavedGraph(TeamRows(map[], team)))
    {
      RankedIsAcyclic(SavedGraph(TeamRows(map[], team)));
    }
  }

  // ----- what is stored -----

  /** The request writes the references of a cohort. */
  ghost predicate Writes(rows: Rows, a: Action, pk: int) {
    match a
    case Create(n, _, _) => n == pk
    case Update(n, newRefs) =>
      n == pk && newRefs.Some? && pk in rows && Accepts(TeamRows(rows, rows[pk].team), pk, newRefs.value)
  }

  ghost predicate NeverWrites(rows: Rows, actions: seq<Action>, pk: int)
    decreases |actions|
  {
    actions == [] || (!Writes(rows, actions[0], pk) && NeverWrites(After(rows, actions[0]), actions[1..], pk))
  }

  lemma {:induction false} UnwrittenStays(rows: Rows, actions: seq<Action>, pk: int)
    requires pk in rows && NeverWrites(rows, actions, pk)
    ensures pk in Run(rows, actions) && Run(rows, actions)[pk] == rows[pk]
    decreases |actions|
  {
    if actions == [] {
    } else {
      assert After(rows, actions[0])[pk] == rows[pk];
      UnwrittenStays(After(rows, actions[0]), actions[1..], pk);
    }
  }

  lemma {:induction false} RunConcat(rows: Rows, first: seq<Action>, second: seq<Action>)
    ensures Run(rows, first + second) == Run(Run(rows, first), second)
    decreases |first|
  {
    if first == [] {
      assert first + second == second;
    } else {
      assert (first + second)[1..] == first[1..] + second;
      RunConcat(After(rows, first[0]), first[1..], second);
    }
  }

  /** What a request that is the last to write a cohort's references says is what is stored in the end. */
  lemma LastWriteIsStored(rows: Rows, before: seq<Action>, a: Action, after: seq<Action>, pk: int)
    requires var rows1 := Run(rows, before);
             Writes(rows1, a, pk) && NeverWrites(After(rows1, a), after, pk)
    ensures var rows1, rows2 := Run(rows, before), Run(rows, before + [a] + after);
            && pk in rows2
            && rows2[pk].refs == (if a.Create? then a.refs else a.newRefs.value)
            && rows2[pk].team == (if a.Create? then a.team else rows1[pk].team)
  {
    var rows1 := Run(rows, before);
    RunConcat(rows, before + [a], after);
    RunConcat(rows, before, [a]);
    assert [a][1..] == [];
    assert Run(rows1, [a]) == Run(After(rows1, a), []);
    UnwrittenStays(After(rows1, a), after, pk);
  }

  /** An edit that the check accepts, and after which the cohort refers to another. */
  lemma AcceptedEditIsStored()
    ensures var rows := map[1 := Cohort(0, []), 2 := Cohort(0, [])];
            After(rows, Update(2, Some([Id(1)]))) == map[1 := Cohort(0, []), 2 := Cohort(0, [Id(1)])]
  {
    var rows := map[1 := Cohort(0, []), 2 := Cohort(0, [])];
    var g, root := SearchGraph(TeamRows(rows, 0), 2, [Id(1)]), Id(2);
    assert [Id(1)][0] == Id(1) && g[root] == [Id(1)] && g[Id(1)] == [];
    assert g.Keys == {Id(1), Id(2)};
    EdgeReaches(g, root, Id(1));
    ClosedSetContainsReachable(g, root, {Id(1)});
    assert !Reaches(g, root, root);
    assert Accepts(TeamRows(rows, 0), 2, [Id(1)]);
  }

  // ----- what goes wrong without those conditions -----

  /** A shared reference is no loop, and is rejected as one. */
  lemma DiamondIsRejected()
    ensures var saved := map[1 := [], 2 := [Id(1)], 3 := [Id(1)], 4 := []];
            var refs := [Id(2), Id(3)];
            Acyclic(SavedGraph(saved[4 := refs])) && !Accepts(saved, 4, refs)
  {
    var saved := map[1 := [], 2 := [Id(1)], 3 := [Id(1)], 4 := []];
    var refs := [Id(2), Id(3)];
    var g, root := SearchGraph(saved, 4, refs), Id(4);
    var saved' := saved[4 := refs];
    var h := SavedGraph(saved');
    forall x, y | Edge(h, x, y)
      ensures y < x
    {
      var r := EdgeComesFromRef(saved', x, y);
    }
    RankedIsAcyclic(h);
    assert refs[0] == Id(2) && refs[1] == Id(3);
    EdgeReaches(g, root, Id(2));
    EdgeReaches(g, root, Id(3));
    assert g[Id(2)][0] == Id(1) && g[Id(3)][0] == Id(1);
    assert Occurs(g, root, Id(2), 0, Id(1)) && Occurs(g, root, Id(3), 0, Id(1));
  }

  /** A cohort edited to name itself by a text value passes the check and is a loop. */
  lemma TextualSelfReferenceIsAccepted()
    ensures var saved: map<int, seq<Ref>> := map[1 := []];
            Acyclic(SavedGraph(saved)) && Accepts(saved, 1, [Text(1, 0)])
            && !Acyclic(SavedGraph(saved[1 := [Text(1, 0)]]))
  {
    var saved: map<int, seq<Ref>> := map[1 := []];
    var refs := [Text(1, 0)];
    var g, root := SearchGraph(saved, 1, refs), Id(1);
    RankedIsAcyclic(SavedGraph(saved));
    assert refs[0] == Text(1, 0);
    EdgeReaches(g, root, Text(1, 0));
    ClosedSetContainsReachable(g, root, {Text(1, 0)});
    AcceptedUpdate(saved, 1, refs);
  }

  /** Two creates, the first of which names a key that does not exist yet, make a loop. */
  lemma DanglingCreateMakesLoop()
    ensures var rows := After(After(map[], Create(1, 0, [Id(2)])), Create(2, 0, [Id(1)]));
            !Acyclic(SavedGraph(TeamRows(rows, 0)))
  {
    var saved := map[1 := [Id(2)]];
    forall x, y | Edge(SavedGraph(saved), x, y)
      ensures x == 1 && y == 2
    {
      var r := EdgeComesFromRef(saved, x, y);
    }
    assert saved[1][0] == Id(2);
    RefBecomesEdge(saved, 1, Id(2));
    EdgeReaches(SavedGraph(saved), 1, 2);
    forall n | Reaches(SavedGraph(saved), n, n)
      ensures false
    {
      ReachesStep(SavedGraph(saved), n, n);
      ClosedSetContainsReachable(SavedGraph(saved), n, {2});
    }
    assert Id(1) in [Id(1)];
    CreateExactly(saved, 2, [Id(1)]);
    var rows := After(After(map[], Create(1, 0, [Id(2)])), Create(2, 0, [Id(1)]));
    assert TeamRows(rows, 0) == saved[2 := [Id(1)]];
  }

  lemma LookUp(rows: Rows, team: int, pk: int, refs: seq<Ref>, r: Ref)
    requires r != Id(pk) && Reaches(SearchGraph(TeamRows(rows, team), pk, refs), Id(pk), r)
    ensures var g := SearchGraph(TeamRows(rows, team), pk, refs);
            && (r in g <==> r.pk in rows && rows[r.pk].team == team)
            && (r in g ==> g[r] == rows[r.pk].refs)
  {
    var saved := TeamRows(rows, team);
    var g := SearchGraph(saved, pk, refs);
    var p: seq<Ref> :| IsWalkBetween(g, p, Id(pk), r);
    var s := p[|p| - 2];
    assert Edge(g, s, p[|p| - 1]);
    assert s == Id(pk) || r in saved[s.pk];
  }

  lemma NotFound<T(!new)>(g: Graph<T>, root: T, visited: seq<T>, waiting: seq<T>, t: T)
    requires SearchState(g, root, visited, waiting + [t])
    requires t !in g
    ensures !AllResolve(g, root)
  {
    assert t in waiting + [t];
  }

  /** The cohorts of every team. */
  class CohortTable {
    var rows: Rows

    constructor ()
      ensures rows == map[]
    {
      rows := map[];
    }

    /** The inner loop of the search: put the references of one cohort on the stack, unless one of
        them was seen before. */
    method QueueReferences(seen: set<Ref>, queue: seq<Ref>, properties: seq<Ref>)
      returns (repeated: bool, longer: seq<Ref>)
      ensures repeated <==> exists r :: r in properties && r in seen
      ensures !repeated ==> longer == queue + properties
    {
      longer := queue;
      for j := 0 to |properties|
        invariant longer == queue + properties[..j]
        invariant forall r :: r in properties[..j] ==> r !in seen
      {
        if properties[j] in seen {
          return true, longer;
        }
        longer := longer + [properties[j]];
      }
      return false, longer;
    }

    method WillCreateLoops(pk: int, team: int, refs: seq<Ref>) returns (check: LoopCheck)
      ensures check.NoLoop? <==> Accepts(TeamRows(rows, team), pk, refs)
      ensures check.InvalidId? ==> !AllResolve(SearchGraph(TeamRows(rows, team), pk, refs), Id(pk))
      ensures check.Loop? ==> !UniquelyReferenced(SearchGraph(TeamRows(rows, team), pk, refs), Id(pk))
      ensures check.NoLoop? && pk in rows && rows[pk].team == team ==>
                forall r :: r in refs ==> r != Id(pk) && r.pk in rows && rows[r.pk].team == team
    {
      ghost var saved := TeamRows(rows, team);
      if pk in saved && Accepts(saved, pk, refs) {
        forall r | r in refs
          ensures r != Id(pk) && r.pk in saved
        {
          AcceptedReferencesExist(saved, pk, refs, r);
          EdgeReaches(SearchGraph(saved, pk, refs), Id(pk), r);
        }
      }
      var seen, queue := {Id(pk)}, refs;
      ghost var g := SearchGraph(TeamRows(rows, team), pk, refs);
      ghost var root, visited := Id(pk), [Id(pk)];
      SearchStart(g, root);
      while queue != []
        invariant SearchState(g, root, visited, queue)
        invariant forall r :: r in seen <==> r in visited
        decreases g.Keys - seen
      {
        var last := |queue| - 1;
        var current := queue[last];
        assert queue == queue[..last] + [current];
        if current in seen {
          SeenAgain(g, root, visited, queue, current);
          return Loop;
        }
        queue := queue[..last];
        seen := seen + {current};
        LookUp(rows, team, pk, refs, current);
        if current.pk !in rows || rows[current.pk].team != team {
          NotFound(g, root, visited, queue, current);
          return InvalidId;
        }
        var properties := rows[current.pk].refs;
        VisitNext(g, root, visited, queue, current);
        visited := visited + [current];
        var repeated, longer := QueueReferences(seen, queue, properties);
        if repeated {
          ghost var t :| t in properties && t in seen;
          SeenAgain(g, root, visited, queue + properties, t);
          return Loop;
        }
        queue := longer;
      }
      SearchComplete(g, root, visited);
      return NoLoop;
    }

    /** Create one cohort under the key that the database assigns. */
    method CreateCohort(pk: int, team: int, refs: seq<Ref>)
      requires pk !in rows
      modifies this
      ensures rows == After(old(rows), Create(pk, team, refs))
      ensures rows == old(rows)[pk := Cohort(team, refs)]
    {
      rows := rows[pk := Cohort(team, refs)];
    }

    /** Edit one cohort; references that the request does not mention stay as they are. */
    method UpdateCohort(pk: int, newRefs: Option<seq<Ref>>) returns (check: LoopCheck)
      requires pk in rows
      modifies this
      ensures rows == After(old(rows), Update(pk, newRefs))
      ensures check.NoLoop? ==>
                rows == old(rows)[pk := Cohort(old(rows)[pk].team, newRefs.GetOr(old(rows)[pk].refs))]
      ensures !check.NoLoop? ==> rows == old(rows)
      ensures check.NoLoop? <==>
              Accepts(TeamRows(old(rows), old(rows)[pk].team), pk, newRefs.GetOr(old(rows)[pk].refs))
    {
      var team, refs := rows[pk].team, newRefs.GetOr(rows[pk].refs);
      check := WillCreateLoops(pk, team, refs);
      if check.NoLoop? {
        rows := rows[pk := Cohort(team, refs)];
      }
    }
  }
}
