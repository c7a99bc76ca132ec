/**
 The scope policy: a table of "this scope implies these scopes", resolved once into its transitive
 closure by a memoising depth-first search, and the checks that read the closure.

 The specification is reachability in the graph whose edges are the table's entries, a scope's
 mention of itself left out.
 */
module Scope {
  import opened Wrappers
  import opened Sorting

  type Table = map<string, seq<string>>

  ghost predicate Implies(table: Table, a: string, b: string) {
    a in table && b in table[a] && a != b
  }

  ghost predicate IsWalk(table: Table, walk: seq<string>) {
    forall i, j :: 0 <= i && j == i + 1 < |walk| ==> Implies(table, walk[i], walk[j])
  }

  /** One or more steps lead from `a` to `b`. */
  ghost predicate Reaches(table: Table, a: string, b: string) {
    exists walk :: 2 <= |walk| && walk[0] == a && walk[|walk| - 1] == b && IsWalk(table, walk)
  }

  ghost predicate Acyclic(table: Table) {
    forall a :: !Reaches(table, a, a)
  }

  ghost predicate WellNamed(table: Table) {
    forall a :: a in table ==> a != "" && "" !in table[a]
  }

  /** The sorted, duplicate-free list of everything `scope` implies, directly or through a chain. */
  ghost predicate IsClosureOf(table: Table, scope: string, list: seq<string>) {
    && Distinct(list)
    && Ordered(TextLe, list)
    && forall x :: x in list <==> Reaches(table, scope, x)
  }

  function Names(table: Table): set<string> {
    table.Keys + set a, b | a in table && b in table[a] :: b
  }

  datatype Error = NoScope | EmptyImplied(scope: string) | Cycle(route: seq<string>)

  datatype Result<+T> = Ok(value: T) | Err(error: Error)

  /******* Reachability *******/

  lemma StepReaches(table: Table, a: string, b: string)
    requires Implies(table, a, b)
    ensures Reaches(table, a, b)
  {
    var walk := [a, b];
    assert walk[0] == a && walk[1] == b && IsWalk(table, walk);
  }

  lemma StepThenReaches(table: Table, a: string, b: string, c: string)
    requires Implies(table, a, b) && Reaches(table, b, c)
    ensures Reaches(table, a, c)
  {
    var walk :| 2 <= |walk| && walk[0] == b && walk[|walk| - 1] == c && IsWalk(table, walk);
    var longer := [a] + walk;
    forall i | 0 <= i < |longer| - 1
      ensures Implies(table, longer[i], longer[i + 1])
    {
      if i > 0 {
        assert longer[i] == walk[i - 1] && longer[i + 1] == walk[i];
      }
    }
    assert longer[|longer| - 1] == c;
  }

  lemma ReachesByStep(table: Table, a: string, c: string) returns (b: string)
    requires Reaches(table, a, c)
    ensures Implies(table, a, b) && (b == c || Reaches(table, b, c))
  {
    var walk :| 2 <= |walk| && walk[0] == a && walk[|walk| - 1] == c && IsWalk(table, walk);
    b := walk[1];
    var rest := walk[1..];
    assert IsWalk(table, rest) && rest[|rest| - 1] == c;
    if 2 <= |rest| {
      assert Reaches(table, b, c);
    }
  }

  lemma ReachesTransitive(table: Table, a: string, b: string, c: string)
    requires Reaches(table, a, b) && Reaches(table, b, c)
    ensures Reaches(table, a, c)
  {
    var p :| 2 <= |p| && p[0] == a && p[|p| - 1] == b && IsWalk(table, p);
    var q :| 2 <= |q| && q[0] == b && q[|q| - 1] == c && IsWalk(table, q);
    var walk := p + q[1..];
    forall i | 0 <= i < |walk| - 1
      ensures Implies(table, walk[i], walk[i + 1])
    {
      if i < |p| - 1 {
        assert walk[i] == p[i] && walk[i + 1] == p[i + 1];
      } else {
        assert walk[i] == q[i - (|p| - 1)] && walk[i + 1] == q[i + 1 - (|p| - 1)];
      }
    }
    assert walk[0] == a && walk[|walk| - 1] == c;
  }

  ghost predicate ClosedUnderSteps(table: Table, scopes: set<string>) {
    forall a, b :: a in scopes && Implies(table, a, b) ==> b in scopes
  }

  /** Nothing leads out of a set that is closed under single steps. */
  lemma ClosedUnderReaches(table: Table, closed: set<string>, a: string, b: string)
    requires ClosedUnderSteps(table, closed) && a in closed
    requires a == b || Reaches(table, a, b)
    ensures b in closed
  {
    if a == b {
      return;
    }
    var walk :| 2 <= |walk| && walk[0] == a && walk[|walk| - 1] == b && IsWalk(table, walk);
    var i := 0;
    while i < |walk| - 1
      invariant 0 <= i < |walk| && walk[i] in closed
    {
      assert Implies(table, walk[i], walk[i + 1]);
      i := i + 1;
    }
  }

  lemma NamesOfReached(table: Table, a: string, b: string)
    requires Reaches(table, a, b)
    ensures a in table && a in Names(table) && b in Names(table)
  {
    var step := ReachesByStep(table, a, b);
    if step != b {
      assert step in Names(table);
      ClosedUnderReaches(table, Names(table), step, b);
    }
  }

  ghost predicate SameGraph(a: Table, b: Table) {
    a.Keys == b.Keys && forall x, y :: Implies(a, x, y) <==> Implies(b, x, y)
  }

  lemma SameGraphSameReach(a: Table, b: Table)
    requires SameGraph(a, b)
    ensures forall x, y :: Reaches(a, x, y) <==> Reaches(b, x, y)
    ensures forall walk :: IsWalk(a, walk) <==> IsWalk(b, walk)
  {
    forall walk
      ensures IsWalk(a, walk) <==> IsWalk(b, walk)
    {
    }
    forall x, y
      ensures Reaches(a, x, y) <==> Reaches(b, x, y)
    {
      if Reaches(a, x, y) {
        var walk :| 2 <= |walk| && walk[0] == x && walk[|walk| - 1] == y && IsWalk(a, walk);
        assert IsWalk(b, walk);
      }
      if Reaches(b, x, y) {
        var walk :| 2 <= |walk| && walk[0] == x && walk[|walk| - 1] == y && IsWalk(b, walk);
        assert IsWalk(a, walk);
      }
    }
  }

  lemma ClosureListUnique(table: Table, scope: string, a: seq<string>, b: seq<string>)
    requires IsClosureOf(table, scope, a) && IsClosureOf(table, scope, b)
    ensures a == b
  {
    DistinctSameElements(a, b);
    TextOrder();
    OrderedIsUnique(TextLe, a, b);
  }

  /******* Normalising the table *******/

  ghost predicate Normal(table: Table) {
    forall a :: a in table ==> a != "" && a !in table[a] && Distinct(table[a]) && "" !in table[a]
  }

  /** What is left of one right-hand side: first mentions only, without the scope itself. */
  function Kept(implied: seq<string>, scope: string): seq<string> {
    if implied == [] then []
    else
      var earlier, last := Kept(implied[..|implied| - 1], scope), implied[|implied| - 1];
      if last == scope || last in earlier then earlier else earlier + [last]
  }

  function NormalForm(table: Table): Table {
    map scope | scope in table :: Kept(table[scope], scope)
  }

  lemma {:induction false} KeptIsExact(implied: seq<string>, scope: string)
    ensures Distinct(Kept(implied, scope))
    ensures forall x :: x in Kept(implied, scope) <==> x in implied && x != scope
    decreases |implied|
  {
    if implied != [] {
      KeptIsExact(implied[..|implied| - 1], scope);
      assert implied == implied[..|implied| - 1] + [implied[|implied| - 1]];
    }
  }

  /** Same graph, without self-implications and repetitions. */
  lemma NormalFormIsNormal(table: Table)
    requires WellNamed(table)
    ensures Normal(NormalForm(table)) && SameGraph(NormalForm(table), table)
  {
    forall scope | scope in table
      ensures Distinct(Kept(table[scope], scope))
      ensures forall x :: x in Kept(table[scope], scope) <==> x in table[scope] && x != scope
    {
      KeptIsExact(table[scope], scope);
    }
  }

  /** One right-hand side, unless it holds an empty name. */
  method FirstMentions(scope: string, implied: seq<string>) returns (r: Option<seq<string>>)
    ensures r == if "" in implied then None else Some(Kept(implied, scope))
  {
    var seen := {scope};
    var kept: seq<string> := [];
    for i := 0 to |implied|
      invariant "" !in implied[..i]
      invariant kept == Kept(implied[..i], scope)
      invariant forall x :: x in seen <==> x == scope || x in kept
    {
      var name := implied[i];
      assert implied[..i + 1] == implied[..i] + [name] && implied[..i + 1][..i] == implied[..i];
      if name == "" {
        return None;
      }
      if name !in seen {
        seen := seen + {name};
        kept := kept + [name];
      }
    }
    assert implied[..|implied|] == implied;
    r := Some(kept);
  }

  /** Refuses empty names, drops self-implications, folds repetitions. The keys are visited in any
      order. */
  method Normalize(table: Table) returns (r: Result<Table>)
    ensures r.Ok? <==> WellNamed(table)
    ensures r.Ok? ==> r.value == NormalForm(table) && Normal(r.value) && SameGraph(r.value, table)
    ensures r.Err? ==> match r.error
                       case NoScope => "" in table
                       case EmptyImplied(scope) => scope in table && "" in table[scope]
                       case Cycle(_) => false
  {
    var direct: Table := map[];
    var left := table.Keys;
    while left != {}
      invariant left <= table.Keys && direct.Keys == table.Keys - left
      invariant forall a :: a in direct ==> a != "" && "" !in table[a]
      invariant forall a :: a in direct ==> direct[a] == Kept(table[a], a)
      decreases left
    {
      var scope :| scope in left;
      left := left - {scope};
      if scope == "" {
        return Err(NoScope);
      }
      var kept := FirstMentions(scope, table[scope]);
      if kept.None? {
        return Err(EmptyImplied(scope));
      }
      direct := direct[scope := kept.value];
    }
    assert direct == NormalForm(table);
    NormalFormIsNormal(table);
    r := Ok(direct);
  }

  /******* Resolving it *******/

  datatype Mark = Visiting | Resolved

  ghost function Finished(state: map<string, Mark>): set<string> {
    set s | s in state && state[s] == Resolved
  }

  /** The scopes being walked are the current path; the resolved ones are closed and correct. */
  ghost predicate Progress(direct: Table, closure: map<string, seq<string>>, state: map<string, Mark>, path: seq<string>) {
    && state.Keys <= Names(direct)
    && closure.Keys == Finished(state)
    && Distinct(path)
    && IsWalk(direct, path)
    && (forall s :: s in state && state[s] == Visiting <==> s in path)
    && ClosedUnderSteps(direct, Finished(state))
    && (forall s :: s in closure ==> IsClosureOf(direct, s, closure[s]) && s !in closure[s])
  }

  /** What the first `count` direct implications contribute. */
  ghost predicate Gathered(direct: Table, implied: seq<string>, count: nat, out: seq<string>)
    requires count <= |implied|
  {
    && Distinct(out)
    && forall x :: x in out <==> exists j :: 0 <= j < count && (x == implied[j] || Reaches(direct, implied[j], x))
  }

  ghost predicate AllFinished(implied: seq<string>, count: nat, state: map<string, Mark>)
    requires count <= |implied|
  {
    forall j :: 0 <= j < count ==> implied[j] in Finished(state)
  }

  lemma OneMoreFinished(implied: seq<string>, i: nat, before: map<string, Mark>, after: map<string, Mark>)
    requires i < |implied| && AllFinished(implied, i, before)
    requires Finished(before) <= Finished(after) && implied[i] in Finished(after)
    ensures AllFinished(implied, i + 1, after)
  {
  }

  lemma EnterKeepsProgress(
    direct: Table, closure: map<string, seq<string>>, state: map<string, Mark>, path: seq<string>, scope: string)
    requires Progress(direct, closure, state, path) && scope in Names(direct) && scope !in state
    requires path != [] ==> Implies(direct, path[|path| - 1], scope)
    ensures Finished(state[scope := Visiting]) == Finished(state)
    ensures Progress(direct, closure, state[scope := Visiting], path + [scope])
  {
    var longer := path + [scope];
    forall i | 0 <= i < |longer| - 1
      ensures Implies(direct, longer[i], longer[i + 1])
    {
      if i < |path| - 1 {
        assert longer[i] == path[i] && longer[i + 1] == path[i + 1];
      }
    }
    var state' := state[scope := Visiting];
    forall s
      ensures s in state' && state'[s] == Visiting <==> s in longer
    {
      assert s in longer <==> s in path || s == scope;
    }
  }

  lemma LeaveKeepsProgress(
    direct: Table, closure: map<string, seq<string>>, state: map<string, Mark>,
    path: seq<string>, scope: string, list: seq<string>)
    requires Progress(direct, closure, state, path + [scope])
    requires IsClosureOf(direct, scope, list)
    requires forall b :: Implies(direct, scope, b) ==> b in Finished(state)
    ensures Progress(direct, closure[scope := list], state[scope := Resolved], path)
    ensures Finished(state[scope := Resolved]) == Finished(state) + {scope}
  {
    var longer := path + [scope];
    assert longer[|path|] == scope && scope in longer;
    forall i | 0 <= i < |path| - 1
      ensures Implies(direct, path[i], path[i + 1])
    {
      assert longer[i] == path[i] && longer[i + 1] == path[i + 1];
    }
    forall i, j | 0 <= i < j < |path|
      ensures path[i] != path[j]
    {
      assert longer[i] == path[i] && longer[j] == path[j];
    }
    forall i | 0 <= i < |path|
      ensures path[i] != scope
    {
      assert longer[i] == path[i];
    }
    if Reaches(direct, scope, scope) {
      var b := ReachesByStep(direct, scope, scope);
      ClosedUnderReaches(direct, Finished(state), b, scope);
      assert false;
    }
    var state' := state[scope := Resolved];
    forall s
      ensures s in state' && state'[s] == Visiting <==> s in path
    {
      assert s in longer <==> s in path || s == scope;
    }
  }

  lemma GatherMore(
    direct: Table, implied: seq<string>, i: nat, before: seq<string>, deeper: seq<string>, out: seq<string>)
    requires i < |implied| && Gathered(direct, implied, i, before)
    requires IsClosureOf(direct, implied[i], deeper)
    requires Distinct(out) && forall x :: x in out <==> x in before || x == implied[i] || x in deeper
    ensures Gathered(direct, implied, i + 1, out)
  {
  }

  /** One step over the closures of the direct implications is full reachability. */
  lemma GatheredIsReach(direct: Table, scope: string, implied: seq<string>, out: seq<string>)
    requires Normal(direct)
    requires implied == if scope in direct then direct[scope] else []
    requires Gathered(direct, implied, |implied|, out)
    ensures forall x :: x in out <==> Reaches(direct, scope, x)
  {
    forall x
      ensures x in out <==> Reaches(direct, scope, x)
    {
      if x in out {
        var j :| 0 <= j < |implied| && (x == implied[j] || Reaches(direct, implied[j], x));
        if x == implied[j] {
          StepReaches(direct, scope, x);
        } else {
          StepThenReaches(direct, scope, implied[j], x);
        }
      }
      if Reaches(direct, scope, x) {
        var step := ReachesByStep(direct, scope, x);
        var j :| 0 <= j < |implied| && implied[j] == step;
      }
    }
  }

  lemma SortedClosure(table: Table, scope: string, out: seq<string>)
    requires Distinct(out) && forall x :: x in out <==> Reaches(table, scope, x)
    ensures IsClosureOf(table, scope, Sort(TextLe, out))
  {
    TextOrder();
    SortKeepsElements(TextLe, out);
    SortOrders(TextLe, out);
    DistinctElements(out, Sort(TextLe, out));
  }

  lemma ScopeIsResolved(
    direct: Table, closure: map<string, seq<string>>, state: map<string, Mark>,
    path: seq<string>, scope: string, implied: seq<string>, out: seq<string>)
    requires Normal(direct) && Progress(direct, closure, state, path + [scope])
    requires implied == if scope in direct then direct[scope] else []
    requires Gathered(direct, implied, |implied|, out)
    requires AllFinished(implied, |implied|, state)
    ensures Progress(direct, closure[scope := Sort(TextLe, out)], state[scope := Resolved], path)
    ensures Finished(state[scope := Resolved]) == Finished(state) + {scope}
  {
    GatheredIsReach(direct, scope, implied, out);
    SortedClosure(direct, scope, out);
    LeaveKeepsProgress(direct, closure, state, path, scope, Sort(TextLe, out));
  }

  /** Appends what is not there yet; `seen` holds the elements of `out`. */
  method AddAll(out: seq<string>, seen: set<string>, more: seq<string>)
    returns (out': seq<string>, seen': set<string>)
    requires Distinct(out) && forall x :: x in seen <==> x in out
    ensures Distinct(out') && forall x :: x in seen' <==> x in out'
    ensures forall x :: x in out' <==> x in out || x in more
  {
    out', seen' := out, seen;
    for k := 0 to |more|
      invariant Distinct(out') && forall x :: x in seen' <==> x in out'
      invariant forall x :: x in out' <==> x in out || x in more[..k]
    {
      assert more[..k + 1] == more[..k] + [more[k]];
      if more[k] !in seen' {
        seen', out' := seen' + {more[k]}, out' + [more[k]];
      }
    }
    assert more[..|more|] == more;
  }

  /** A chain of direct implications that comes back to a scope it has passed, and only then. */
  ghost predicate ClosesCycle(table: Table, route: seq<string>) {
    && 2 <= |route|
    && IsWalk(table, route)
    && Distinct(route[..|route| - 1])
    && route[|route| - 1] in route[..|route| - 1]
  }

  /** Where two chains part after `prefix`: by name at the start, by the order of the entry after that. */
  ghost predicate ChoiceBefore(direct: Table, prefix: seq<string>, x: string, y: string) {
    if prefix == [] then x != y && TextLe(x, y)
    else
      var last := prefix[|prefix| - 1];
      last in direct && exists j, k :: 0 <= j < k < |direct[last]| && direct[last][j] == x && direct[last][k] == y
  }

  ghost predicate Earlier(direct: Table, a: seq<string>, b: seq<string>) {
    exists i :: PartsAt(direct, a, b, i)
  }

  ghost predicate PartsAt(direct: Table, a: seq<string>, b: seq<string>, i: int) {
    0 <= i < |a| && i < |b| && a[..i] == b[..i] && ChoiceBefore(direct, a[..i], a[i], b[i])
  }

  /** Of all the chains that continue `prefix` and close a cycle, the first. */
  ghost predicate IsFirstCycle(direct: Table, prefix: seq<string>, route: seq<string>) {
    && prefix <= route
    && ClosesCycle(direct, route)
    && forall w :: ClosesCycle(direct, w) && prefix <= w ==> w == route || Earlier(direct, route, w)
  }

  /** The graph decides which chain is first. */
  lemma FirstCycleIsUnique(direct: Table, prefix: seq<string>, a: seq<string>, b: seq<string>)
    requires Normal(direct) && IsFirstCycle(direct, prefix, a) && IsFirstCycle(direct, prefix, b)
    ensures a == b
  {
    if a != b {
      var i :| PartsAt(direct, a, b, i);
      var j :| PartsAt(direct, b, a, j);
      if i < j {
        assert b[..j][i] == a[..j][i];
      } else if j < i {
        assert a[..i][j] == b[..i][j];
      }
      ChoiceIsStrict(direct, a[..i], a[i], b[i]);
      ChoiceIsStrict(direct, b[..j], b[j], a[j]);
      assert false;
    }
  }

  lemma ChoiceIsStrict(direct: Table, prefix: seq<string>, x: string, y: string)
    requires Normal(direct)
    ensures !(ChoiceBefore(direct, prefix, x, y) && ChoiceBefore(direct, prefix, y, x))
  {
    if prefix == [] && TextLe(x, y) && TextLe(y, x) {
      TextLeAntisymmetric(x, y);
    }
  }

  /** A walk from a scope back to it is a cycle. */
  lemma ReturnReaches(table: Table, walk: seq<string>, i: nat)
    requires IsWalk(table, walk) && i < |walk| - 1 && walk[i] == walk[|walk| - 1]
    ensures Reaches(table, walk[i], walk[i])
  {
    var tail := walk[i..];
    assert tail[0] == walk[i] && tail[|tail| - 1] == walk[i] && IsWalk(table, tail);
  }

  lemma {:induction false} WalkStaysIn(table: Table, closed: set<string>, walk: seq<string>, i: nat, k: nat)
    requires ClosedUnderSteps(table, closed) && IsWalk(table, walk)
    requires i <= k < |walk| && walk[i] in closed
    ensures walk[k] in closed
  {
    if i < k {
      WalkStaysIn(table, closed, walk, i, k - 1);
      assert Implies(table, walk[k - 1], walk[k]);
    }
  }

  /** No chain that goes through a resolved scope closes a cycle. */
  lemma NoCycleThroughFinished(
    direct: Table, closure: map<string, seq<string>>, state: map<string, Mark>, path: seq<string>, w: seq<string>)
    requires Progress(direct, closure, state, path)
    requires path < w && w[|path|] in Finished(state)
    ensures !ClosesCycle(direct, w)
  {
    var last := |w| - 1;
    if IsWalk(direct, w) {
      WalkStaysIn(direct, Finished(state), w, |path|, last);
      forall j | 0 <= j < last
        ensures w[..last][j] != w[last]
      {
        if j < |path| {
          assert path[j] == w[j] && path[j] in path;
        } else if w[j] == w[last] {
          ReturnReaches(direct, w, j);
        }
      }
    }
  }

  lemma ReturnCloses(direct: Table, path: seq<string>, scope: string)
    requires Distinct(path) && IsWalk(direct, path) && scope in path
    requires Implies(direct, path[|path| - 1], scope)
    ensures IsFirstCycle(direct, path + [scope], path + [scope])
  {
    var route := path + [scope];
    forall i | 0 <= i < |route| - 1
      ensures Implies(direct, route[i], route[i + 1])
    {
      if i < |path| - 1 {
        assert route[i] == path[i] && route[i + 1] == path[i + 1];
      }
    }
    ReturnIsFirst(direct, path, scope);
  }

  /** Reaching a scope already on the path closes the only cycle that begins that way. */
  lemma ReturnIsFirst(direct: Table, path: seq<string>, scope: string)
    requires Distinct(path) && IsWalk(direct, path + [scope]) && scope in path
    ensures IsFirstCycle(direct, path + [scope], path + [scope])
  {
    var route := path + [scope];
    assert route[..|route| - 1] == path;
    var j :| 0 <= j < |path| && path[j] == scope;
    forall w | route <= w && |route| < |w|
      ensures !ClosesCycle(direct, w)
    {
      var before := w[..|w| - 1];
      assert before[j] == route[j] == scope && before[|path|] == route[|path|] == scope;
    }
  }

  /** The first cycle through the first child that has one is the first of all. */
  lemma FirstAmongChildren(
    direct: Table, closure: map<string, seq<string>>, state: map<string, Mark>,
    path: seq<string>, scope: string, implied: seq<string>, i: nat, route: seq<string>)
    requires Normal(direct) && Progress(direct, closure, state, path + [scope])
    requires implied == if scope in direct then direct[scope] else []
    requires i < |implied| && AllFinished(implied, i, state)
    requires IsFirstCycle(direct, path + [scope] + [implied[i]], route)
    ensures IsFirstCycle(direct, path + [scope], route)
  {
    var prefix := path + [scope];
    var n := |prefix|;
    assert prefix == (prefix + [implied[i]])[..n] == route[..n];
    forall w | ClosesCycle(direct, w) && prefix <= w
      ensures w == route || Earlier(direct, route, w)
    {
      var k := NextChild(direct, prefix, w);
      if k < i {
        NoCycleThroughFinished(direct, closure, state, prefix, w);
      } else if k > i {
        LaterChild(direct, prefix, implied, i, k, route, w);
      }
    }
  }

  /** A chain that closes a cycle goes on from any part of it by some direct implication. */
  lemma NextChild(direct: Table, prefix: seq<string>, w: seq<string>) returns (k: nat)
    requires prefix != [] && Distinct(prefix) && prefix <= w && ClosesCycle(direct, w)
    ensures prefix[|prefix| - 1] in direct && k < |direct[prefix[|prefix| - 1]]|
    ensures prefix < w && w[|prefix|] == direct[prefix[|prefix| - 1]][k]
    ensures prefix + [w[|prefix|]] <= w
  {
    var n := |prefix|;
    DistinctDoesNotClose(direct, prefix);
    assert n < |w|;
    assert Implies(direct, w[n - 1], w[n]);
    k :| 0 <= k < |direct[w[n - 1]]| && direct[w[n - 1]][k] == w[n];
    assert w[..n + 1] == prefix + [w[n]];
  }

  lemma LaterChild(
    direct: Table, prefix: seq<string>, implied: seq<string>, i: nat, k: nat, route: seq<string>, w: seq<string>)
    requires prefix != [] && prefix[|prefix| - 1] in direct && implied == direct[prefix[|prefix| - 1]]
    requires i < k < |implied|
    requires prefix + [implied[i]] <= route && prefix + [implied[k]] <= w
    ensures Earlier(direct, route, w)
  {
    var n := |prefix|;
    assert route[n] == (prefix + [implied[i]])[n] == implied[i];
    assert w[n] == (prefix + [implied[k]])[n] == implied[k];
    assert route[..n] == prefix == w[..n];
    assert PartsAt(direct, route, w, n);
  }

  /** A chain without repetitions does not close a cycle. */
  lemma DistinctDoesNotClose(direct: Table, w: seq<string>)
    requires Distinct(w)
    ensures !ClosesCycle(direct, w)
  {
    var last := |w| - 1;
    forall j | 0 <= j < last
      ensures w[..last][j] != w[last]
    {
    }
  }

  /** The first cycle from the first root that has one is the first of all. */
  lemma FirstAmongRoots(
    direct: Table, closure: map<string, seq<string>>, state: map<string, Mark>,
    scopes: seq<string>, i: nat, route: seq<string>)
    requires Normal(direct) && Progress(direct, closure, state, [])
    requires ListsKeys(direct, scopes)
    requires i < |scopes| && AllFinished(scopes, i, state)
    requires IsFirstCycle(direct, [scopes[i]], route)
    ensures IsFirstCycle(direct, [], route)
  {
    forall w | ClosesCycle(direct, w)
      ensures w == route || Earlier(direct, route, w)
    {
      assert Implies(direct, w[0], w[1]);
      var k :| 0 <= k < |scopes| && scopes[k] == w[0];
      if k < i {
        NoCycleThroughFinished(direct, closure, state, [], w);
      } else if k == i {
        assert w[..1] == [scopes[i]];
      } else {
        assert route[0] == [scopes[i]][0];
        assert PartsAt(direct, route, w, 0);
      }
    }
  }

  ghost predicate ListsKeys(table: Table, scopes: seq<string>) {
    && Ordered(TextLe, scopes)
    && Distinct(scopes)
    && forall s :: s in scopes <==> s in table
  }

  class Resolver {
    const direct: Table
    var closure: map<string, seq<string>>
    var state: map<string, Mark>

    constructor (direct: Table)
      requires Normal(direct)
      ensures this.direct == direct && state == map[] && Valid([])
    {
      this.direct, closure, state := direct, map[], map[];
    }

    ghost predicate Valid(path: seq<string>)
      reads this
    {
      Normal(direct) && Progress(direct, closure, state, path)
    }

    /** Returns everything one scope implies, or the route that closes a cycle. */
    method Resolve(scope: string, path: seq<string>) returns (r: Result<seq<string>>)
      requires Valid(path) && scope in Names(direct)
      requires path != [] ==> Implies(direct, path[|path| - 1], scope)
      modifies this
      ensures old(state.Keys) <= state.Keys
      ensures r.Ok? ==> Valid(path) && old(Finished(state)) <= Finished(state)
      ensures r.Ok? ==> scope in closure && closure[scope] == r.value
      ensures r.Err? ==> r.error.Cycle? && IsFirstCycle(direct, path + [scope], r.error.route)
      decreases Names(direct) - state.Keys, 0
    {
      if scope in state {
        match state[scope]
        case Resolved =>
          return Ok(closure[scope]);
        case Visiting =>
          ReturnCloses(direct, path, scope);
          return Err(Cycle(path + [scope]));
      }
      EnterKeepsProgress(direct, closure, state, path, scope);
      state := state[scope := Visiting];
      var implied := if scope in direct then direct[scope] else [];
      assert scope in Names(direct) - old(state.Keys);
      r := Gather(scope, path, implied);
      if r.Ok? {
        ScopeIsResolved(direct, closure, state, path, scope, implied, r.value);
        var out := Sort(TextLe, r.value);
        closure := closure[scope := out];
        state := state[scope := Resolved];
        r := Ok(out);
      }
    }

    /** Collects the direct implications of the scope being walked, each with what it implies. */
    method Gather(scope: string, path: seq<string>, implied: seq<string>) returns (r: Result<seq<string>>)
      requires Valid(path + [scope])
      requires implied == if scope in direct then direct[scope] else []
      modifies this
      ensures old(state.Keys) <= state.Keys
      ensures r.Ok? ==> Valid(path + [scope]) && old(Finished(state)) <= Finished(state)
      ensures r.Ok? ==> Gathered(direct, implied, |implied|, r.value)
      ensures r.Ok? ==> AllFinished(implied, |implied|, state)
      ensures r.Err? ==> r.error.Cycle? && IsFirstCycle(direct, path + [scope], r.error.route)
      decreases Names(direct) - state.Keys, 1
    {
      var out: seq<string>, seen: set<string> := [], {};
      for i := 0 to |implied|
        invariant Valid(path + [scope])
        invariant old(state.Keys) <= state.Keys && old(Finished(state)) <= Finished(state)
        invariant forall x :: x in seen <==> x in out
        invariant Gathered(direct, implied, i, out)
        invariant AllFinished(implied, i, state)
      {
        ghost var before, closureBefore, stateBefore := out, closure, state;
        assert Implies(direct, scope, implied[i]);
        out, seen := AddAll(out, seen, [implied[i]]);
        var deeper := Resolve(implied[i], path + [scope]);
        if deeper.Err? {
          FirstAmongChildren(direct, closureBefore, stateBefore, path, scope, implied, i, deeper.error.route);
          return deeper;
        }
        out, seen := AddAll(out, seen, deeper.value);
        GatherMore(direct, implied, i, before, deeper.value, out);
        OneMoreFinished(implied, i, stateBefore, state);
      }
      r := Ok(out);
    }

    method ResolveEach(scopes: seq<string>) returns (failure: Option<Error>)
      requires Valid([]) && ListsKeys(direct, scopes)
      modifies this
      ensures failure.None? ==> Valid([]) && AllFinished(scopes, |scopes|, state)
      ensures failure.Some? ==> failure.value.Cycle? && IsFirstCycle(direct, [], failure.value.route)
    {
      for i := 0 to |scopes|
        invariant Valid([]) && AllFinished(scopes, i, state)
      {
        ghost var closureBefore, stateBefore := closure, state;
        assert scopes[i] in scopes && scopes[i] in Names(direct);
        var resolved := Resolve(scopes[i], []);
        if resolved.Err? {
          assert [] + [scopes[i]] == [scopes[i]];
          FirstAmongRoots(direct, closureBefore, stateBefore, scopes, i, resolved.error.route);
          return Some(resolved.error);
        }
        OneMoreFinished(scopes, i, stateBefore, state);
      }
      failure := None;
    }
  }

  /** The route a cycle is reported by ends where it has been before, so its tail is a cycle. */
  lemma RouteHasCycle(table: Table, route: seq<string>)
    requires ClosesCycle(table, route)
    ensures !Acyclic(table)
  {
    var i :| 0 <= i < |route| - 1 && route[..|route| - 1][i] == route[|route| - 1];
    ReturnReaches(table, route, i);
  }

  /******* The policy *******/

  /** `closure` has a row for every name in the table. */
  datatype ScopeImplications = ScopeImplications(closure: map<string, seq<string>>)

  function ImpliedBy(policy: ScopeImplications, scope: string): seq<string> {
    if scope in policy.closure then policy.closure[scope] else []
  }

  ghost predicate Resolves(policy: ScopeImplications, table: Table) {
    && Acyclic(table)
    && forall scope :: IsClosureOf(table, scope, ImpliedBy(policy, scope))
  }

  /** Succeeds exactly on a well-named table without cycles, and then holds every scope's closure. */
  method NewScopeImplications(table: Table) returns (r: Result<ScopeImplications>)
    ensures r.Ok? <==> WellNamed(table) && Acyclic(table)
    ensures r.Ok? ==> Resolves(r.value, table)
    ensures r.Err? ==> match r.error
                       case NoScope => "" in table
                       case EmptyImplied(scope) => scope in table && "" in table[scope]
                       case Cycle(route) =>
                         && WellNamed(table)
                         && ClosesCycle(table, route)
                         && IsFirstCycle(NormalForm(table), [], route)
  {
    var normalized := Normalize(table);
    if normalized.Err? {
      return Err(normalized.error);
    }
    SameGraphSamePolicy(normalized.value, table);
    r := ResolveAll(normalized.value);
  }

  /** Resolves every scope of a normal table, in sorted order. */
  method ResolveAll(direct: Table) returns (r: Result<ScopeImplications>)
    requires Normal(direct)
    ensures r.Ok? <==> Acyclic(direct)
    ensures r.Ok? ==> Resolves(r.value, direct)
    ensures r.Err? ==> r.error.Cycle? && IsFirstCycle(direct, [], r.error.route)
  {
    var scopes := InOrder(direct.Keys);
    var resolver := new Resolver(direct);
    var failure := resolver.ResolveEach(scopes);
    match failure
    case Some(error) =>
      RouteHasCycle(direct, error.route);
      return Err(error);
    case None =>
      FinishedIsResolved(direct, resolver.closure, resolver.state, scopes);
      return Ok(ScopeImplications(resolver.closure));
  }

  lemma SameGraphSamePolicy(a: Table, b: Table)
    requires SameGraph(a, b)
    ensures Acyclic(a) <==> Acyclic(b)
    ensures forall policy :: Resolves(policy, a) <==> Resolves(policy, b)
    ensures forall route :: ClosesCycle(a, route) <==> ClosesCycle(b, route)
  {
    SameGraphSameReach(a, b);
    forall policy, scope
      ensures IsClosureOf(a, scope, ImpliedBy(policy, scope)) <==> IsClosureOf(b, scope, ImpliedBy(policy, scope))
    {
    }
  }

  lemma FinishedIsResolved(
    direct: Table, closure: map<string, seq<string>>, state: map<string, Mark>, scopes: seq<string>)
    requires Progress(direct, closure, state, [])
    requires forall s :: s in direct ==> s in scopes
    requires AllFinished(scopes, |scopes|, state)
    ensures Resolves(ScopeImplications(closure), direct)
  {
    var policy := ScopeImplications(closure);
    forall scope
      ensures IsClosureOf(direct, scope, ImpliedBy(policy, scope))
      ensures !Reaches(direct, scope, scope)
    {
      if scope !in closure {
        assert scope !in direct;
        if x :| Reaches(direct, scope, x) {
          NamesOfReached(direct, scope, x);
        }
      }
    }
  }

  /** Neither the order maps are walked in nor how a table is written shows in the policy. */
  lemma PolicyIsUnique(table: Table, a: ScopeImplications, b: ScopeImplications, scope: string)
    requires Resolves(a, table) && Resolves(b, table)
    ensures ImpliedBy(a, scope) == ImpliedBy(b, scope)
  {
    ClosureListUnique(table, scope, ImpliedBy(a, scope), ImpliedBy(b, scope));
  }

  /** The rows worth showing: scopes that imply nothing are left out. */
  method Closure(policy: ScopeImplications) returns (rows: map<string, seq<string>>)
    ensures forall table :: Resolves(policy, table) ==>
              forall s :: s in rows <==> exists x :: Reaches(table, s, x)
    ensures forall s :: s in rows ==> rows[s] == ImpliedBy(policy, s)
  {
    rows := map s | s in policy.closure && policy.closure[s] != [] :: policy.closure[s];
    forall table, s | Resolves(policy, table)
      ensures s in rows <==> exists x :: Reaches(table, s, x)
    {
      var implied := ImpliedBy(policy, s);
      assert IsClosureOf(table, s, implied);
      if implied != [] {
        assert implied[0] in implied;
      }
    }
  }

  /******* Expanding what a caller holds *******/

  function AppendNew(out: seq<string>, more: seq<string>): seq<string>
    decreases |more|
  {
    if more == [] then out
    else AppendNew(if more[0] in out then out else out + [more[0]], more[1..])
  }

  function ExpandFrom(policy: ScopeImplications, out: seq<string>, held: seq<string>): seq<string>
    decreases |held|
  {
    if held == [] then out
    else ExpandFrom(policy, AppendNew(out, ImpliedBy(policy, held[0])), held[1..])
  }

  function Expanded(policy: ScopeImplications, held: seq<string>): seq<string> {
    ExpandFrom(policy, held, held)
  }

  /** Returns `held` followed by everything it implies. */
  method Expand(policy: ScopeImplications, held: seq<string>) returns (out: seq<string>)
    ensures out == Expanded(policy, held)
  {
    if |held| == 0 {
      return held;
    }
    var seen := set s | s in held;
    out := held;
    for i := 0 to |held|
      invariant forall x :: x in seen <==> x in out
      invariant ExpandFrom(policy, out, held[i..]) == Expanded(policy, held)
    {
      var implied := ImpliedBy(policy, held[i]);
      assert held[i..][0] == held[i] && held[i..][1..] == held[i + 1..];
      ghost var before := out;
      for k := 0 to |implied|
        invariant forall x :: x in seen <==> x in out
        invariant AppendNew(out, implied[k..]) == AppendNew(before, implied)
      {
        assert implied[k..][0] == implied[k] && implied[k..][1..] == implied[k + 1..];
        if implied[k] !in seen {
          seen, out := seen + {implied[k]}, out + [implied[k]];
        }
      }
    }
  }

  /** `out` is `base` followed by distinct elements that are not in it. */
  ghost predicate Extends(base: seq<string>, out: seq<string>) {
    && base <= out
    && Distinct(out[|base|..])
    && forall x :: x in out[|base|..] ==> x !in base
  }

  lemma ExtendsByOne(base: seq<string>, out: seq<string>, x: string)
    requires Extends(base, out) && x !in out
    ensures Extends(base, out + [x])
  {
    assert (out + [x])[|base|..] == out[|base|..] + [x];
    assert forall y :: y in out[|base|..] ==> y in out;
  }

  lemma {:induction false} AppendNewExtends(base: seq<string>, out: seq<string>, more: seq<string>)
    requires Extends(base, out)
    ensures Extends(base, AppendNew(out, more))
    ensures forall x :: x in AppendNew(out, more) <==> x in out || x in more
    decreases |more|
  {
    if more != [] {
      var next := if more[0] in out then out else out + [more[0]];
      if more[0] !in out {
        ExtendsByOne(base, out, more[0]);
      }
      AppendNewExtends(base, next, more[1..]);
      assert forall x :: x in more <==> x == more[0] || x in more[1..];
    }
  }

  ghost predicate ImpliedByAny(policy: ScopeImplications, held: seq<string>, x: string) {
    exists s :: s in held && x in ImpliedBy(policy, s)
  }

  lemma {:induction false} ExpandFromExtends(
    policy: ScopeImplications, base: seq<string>, out: seq<string>, held: seq<string>)
    requires Extends(base, out)
    ensures Extends(base, ExpandFrom(policy, out, held))
    ensures forall x :: x in ExpandFrom(policy, out, held) <==> x in out || ImpliedByAny(policy, held, x)
    decreases |held|
  {
    if held != [] {
      var next := AppendNew(out, ImpliedBy(policy, held[0]));
      AppendNewExtends(base, out, ImpliedBy(policy, held[0]));
      ExpandFromExtends(policy, base, next, held[1..]);
      forall x
        ensures ImpliedByAny(policy, held, x) <==> x in ImpliedBy(policy, held[0]) || ImpliedByAny(policy, held[1..], x)
      {
        assert forall s :: s in held <==> s == held[0] || s in held[1..];
      }
    }
  }

  /** Held, or reachable in one or more steps from something held. */
  ghost predicate EffectivelyHeld(table: Table, held: seq<string>, x: string) {
    x in held || exists s :: s in held && Reaches(table, s, x)
  }

  /** The held scopes stay an unchanged prefix, and each further reachable scope follows once. */
  lemma ExpandIsExact(policy: ScopeImplications, table: Table, held: seq<string>)
    requires Resolves(policy, table)
    ensures Extends(held, Expanded(policy, held))
    ensures forall x :: x in Expanded(policy, held) <==> EffectivelyHeld(table, held, x)
  {
    assert held[|held|..] == [];
    ExpandFromExtends(policy, held, held, held);
    forall x
      ensures ImpliedByAny(policy, held, x) <==> exists s :: s in held && Reaches(table, s, x)
    {
      if ImpliedByAny(policy, held, x) {
        var s :| s in held && x in ImpliedBy(policy, s);
        assert IsClosureOf(table, s, ImpliedBy(policy, s));
      }
      if s :| s in held && Reaches(table, s, x) {
        assert IsClosureOf(table, s, ImpliedBy(policy, s));
      }
    }
  }

  /** Expanding again adds nothing, in the same order. */
  lemma ExpandIsIdempotent(policy: ScopeImplications, table: Table, held: seq<string>)
    requires Resolves(policy, table)
    ensures Expanded(policy, Expanded(policy, held)) == Expanded(policy, held)
  {
    var once := Expanded(policy, held);
    var twice := Expanded(policy, once);
    ExpandIsExact(policy, table, held);
    ExpandIsExact(policy, table, once);
    if |twice| > |once| {
      var x := twice[|once|];
      assert x in twice[|once|..] && x in twice;
      var s :| s in once && Reaches(table, s, x);
      if s !in held {
        var h :| h in held && Reaches(table, h, s);
        ReachesTransitive(table, h, s, x);
      }
      assert false;
    }
  }

  /** Holding more never means being allowed less. */
  lemma ExpandIsMonotone(policy: ScopeImplications, table: Table, fewer: seq<string>, more: seq<string>)
    requires Resolves(policy, table) && forall s :: s in fewer ==> s in more
    ensures forall x :: x in Expanded(policy, fewer) ==> x in Expanded(policy, more)
  {
    ExpandIsExact(policy, table, fewer);
    ExpandIsExact(policy, table, more);
  }

  /******* Judging a caller *******/

  datatype Principal = Principal(subject: string, scopes: seq<string>, scheme: string, implied: Policy)

  /** The policy attached to a caller, if the application states one. */
  datatype Policy = NoPolicy | Attached(policy: ScopeImplications)

  function EffectiveScopes(p: Principal): seq<string> {
    if p.implied.NoPolicy? then p.scopes else Expanded(p.implied.policy, p.scopes)
  }

  method SatisfiesScopes(p: Principal, required: seq<string>) returns (ok: bool)
    ensures ok <==> Satisfies(p, required)
  {
    if |required| == 0 {
      return true;
    }
    var held := p.scopes;
    if p.implied.Attached? {
      held := Expand(p.implied.policy, p.scopes);
    }
    for i := 0 to |required|
      invariant forall j :: 0 <= j < i ==> required[j] in held
    {
      assert required[i] in required;
      if required[i] !in held {
        return false;
      }
    }
    ok := true;
  }

  predicate Satisfies(p: Principal, required: seq<string>) {
    forall s :: s in required ==> s in EffectiveScopes(p)
  }

  /** What a caller holding `held` effectively has: under a policy what it reaches in the policy's
      table, without one what it carries. */
  ghost predicate Has(implied: Policy, table: Table, held: seq<string>, s: string) {
    s in held || (implied.Attached? && exists h :: h in held && Reaches(table, h, s))
  }

  /** A requirement is met exactly when each of its scopes is carried or, where a policy is attached,
      reachable in the table from one that is. */
  lemma SatisfiesIsReachability(p: Principal, table: Table, required: seq<string>)
    requires p.implied.Attached? ==> Resolves(p.implied.policy, table)
    ensures Satisfies(p, required) <==> forall s :: s in required ==> Has(p.implied, table, p.scopes, s)
  {
    if p.implied.Attached? {
      ExpandIsExact(p.implied.policy, table, p.scopes);
    }
  }
}
