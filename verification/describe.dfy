/**
 The generated document's endpoint list. Modules reach it in whatever order they were wired, so the
 list is sorted, and what examples need from other modules is collected first.
 */
module Describe {
  import opened Sorting
  import opened Text

  const INTERNAL_PATH_PREFIX := "_"
  const INTERNAL_RESOURCE := "app-system"

  /** A controller: raw, or documented with the id prefix it declares (possibly none) and the rest of
      its documentation. */
  datatype Controller = Raw | Documented(idPrefix: string, doc: int)

  datatype Verb = GET | POST | PUT | PATCH | DELETE

  datatype Module = Module(path: string, controllers: seq<(Verb, Controller)>)

  type Prefixes = map<string, string>

  /** Everything rendered depends on the endpoint itself and on the collected prefixes. */
  datatype Endpoint = Endpoint(path: string, verb: Verb, controller: Controller, prefixes: Prefixes)

  function VerbText(v: Verb): string {
    match v
    case GET => "GET"
    case POST => "POST"
    case PUT => "PUT"
    case PATCH => "PATCH"
    case DELETE => "DELETE"
  }

  function Lower(s: string): string {
    if s == "" then "" else [if 'A' <= s[0] <= 'Z' then s[0] - 'A' + 'a' else s[0]] + Lower(s[1..])
  }

  function Singular(s: string): string {
    var l := Lower(s);
    if |l| > 1 && l[|l| - 1] == 's' then l[..|l| - 1] else l
  }

  function FirstResource(segments: seq<string>): string {
    if segments == [] then ""
    else if segments[0] == "" || segments[0][0] == '{' then FirstResource(segments[1..])
    else if segments[0] == INTERNAL_PATH_PREFIX then INTERNAL_RESOURCE
    else Singular(segments[0])
  }

  function ResourceOf(path: string): string {
    FirstResource(Split(path, '/'))
  }

  /** The lower-case letters of ASCII. */
  lemma {:induction false} LowerEach(s: string)
    ensures |Lower(s)| == |s|
    ensures forall i :: 0 <= i < |s| ==> Lower(s)[i] == if 'A' <= s[i] <= 'Z' then s[i] - 'A' + 'a' else s[i]
  {
    if s != "" {
      LowerEach(s[1..]);
    }
  }

  predicate IsParameter(segment: string) {
    segment == "" || segment[0] == '{'
  }

  /** Past empty segments and parameters the first segment names the resource. */
  lemma ResourceIsFirstWord(segments: seq<string>, n: nat)
    requires n < |segments| && forall s :: s in segments ==> '/' !in s
    requires !IsParameter(segments[n]) && forall i :: 0 <= i < n ==> IsParameter(segments[i])
    ensures IsNamedBy(ResourceOf(Joined(segments, '/')), segments[n])
  {
    JoinedSplits(segments, '/');
    FirstWordNames(segments, n);
  }

  /** `resource` is `word` in lower case and without a final "s"; "_" names the application's own. */
  predicate IsNamedBy(resource: string, word: string) {
    if word == "_" then resource == "app-system"
    else
      var low := seq(|word|, i requires 0 <= i < |word| =>
                   if 'A' <= word[i] <= 'Z' then word[i] - 'A' + 'a' else word[i]);
      if |low| > 1 && low[|low| - 1] == 's' then resource == low[..|low| - 1] else resource == low
  }

  lemma {:induction false} FirstWordNames(segments: seq<string>, n: nat)
    requires n < |segments| && !IsParameter(segments[n]) && forall i :: 0 <= i < n ==> IsParameter(segments[i])
    ensures IsNamedBy(FirstResource(segments), segments[n])
    decreases n
  {
    if n == 0 {
      LowerEach(segments[0]);
    } else {
      FirstWordNames(segments[1..], n - 1);
    }
  }

  /******* Id prefixes *******/

  /** The module declares `prefix` for `resource`. */
  ghost predicate Declares(m: Module, resource: string, prefix: string) {
    && resource != "" && resource == ResourceOf(m.path)
    && prefix != ""
    && exists c :: c in m.controllers && c.1.Documented? && c.1.idPrefix == prefix
  }

  ghost predicate DeclaredIn(modules: seq<Module>, resource: string, prefix: string) {
    exists m :: m in modules && Declares(m, resource, prefix)
  }

  /** No resource is given two prefixes. */
  ghost predicate PrefixesAgree(modules: seq<Module>) {
    forall r, p, q :: DeclaredIn(modules, r, p) && DeclaredIn(modules, r, q) ==> p == q
  }

  /** Controller `k` of module `i` declares `prefix` for `resource`. */
  ghost predicate DeclaresAt(modules: seq<Module>, i: int, k: int, resource: string, prefix: string) {
    && 0 <= i < |modules|
    && 0 <= k < |modules[i].controllers|
    && resource != "" && resource == ResourceOf(modules[i].path)
    && prefix != "" && modules[i].controllers[k].1.Documented? && modules[i].controllers[k].1.idPrefix == prefix
  }

  /** Place (j, l) comes before place (i, k). */
  predicate Sooner(j: int, l: int, i: int, k: int) {
    j < i || (j == i && l < k)
  }

  /** Of the places before (i, k), each resource has the prefix of the last that declares one for it. */
  ghost predicate Collected(modules: seq<Module>, i: int, k: int, prefixes: Prefixes, at: map<string, (int, int)>) {
    && at.Keys == prefixes.Keys
    && (forall r :: r in at ==> Sooner(at[r].0, at[r].1, i, k) && DeclaresAt(modules, at[r].0, at[r].1, r, prefixes[r]))
    && (forall j, l, r, p :: DeclaresAt(modules, j, l, r, p) && Sooner(j, l, i, k) ==>
          r in at && !Sooner(at[r].0, at[r].1, j, l))
  }

  lemma CollectOneMore(modules: seq<Module>, i: int, k: int, prefixes: Prefixes, at: map<string, (int, int)>)
    requires 0 <= i < |modules| && 0 <= k < |modules[i].controllers| && Collected(modules, i, k, prefixes, at)
    ensures
      var r, c := ResourceOf(modules[i].path), modules[i].controllers[k].1;
      if r != "" && c.Documented? && c.idPrefix != ""
      then Collected(modules, i, k + 1, prefixes[r := c.idPrefix], at[r := (i, k)])
      else Collected(modules, i, k + 1, prefixes, at)
  {
    forall j, l | Sooner(j, l, i, k + 1)
      ensures Sooner(j, l, i, k) || (j == i && l == k)
    {
    }
  }

  lemma CollectedModule(modules: seq<Module>, i: int, prefixes: Prefixes, at: map<string, (int, int)>)
    requires 0 <= i < |modules|
    requires Collected(modules, i, |modules[i].controllers|, prefixes, at)
             || (Collected(modules, i, 0, prefixes, at) && ResourceOf(modules[i].path) == "")
    ensures Collected(modules, i + 1, 0, prefixes, at)
  {
  }

  ghost predicate NoneLater(modules: seq<Module>, i: int, k: int, r: string) {
    forall j, l, q :: DeclaresAt(modules, j, l, r, q) ==> !Sooner(i, k, j, l)
  }

  /** The last declaration of a resource's prefix is the one kept. */
  ghost predicate LastDeclared(modules: seq<Module>, prefixes: Prefixes) {
    forall r, i, k, p :: DeclaresAt(modules, i, k, r, p) && NoneLater(modules, i, k, r) ==>
      r in prefixes && prefixes[r] == p
  }

  method CollectIDPrefixes(modules: seq<Module>) returns (prefixes: Prefixes)
    ensures forall r :: r in prefixes ==> DeclaredIn(modules, r, prefixes[r])
    ensures forall r, p :: DeclaredIn(modules, r, p) ==> r in prefixes
    ensures LastDeclared(modules, prefixes)
  {
    prefixes := map[];
    ghost var at: map<string, (int, int)> := map[];
    for i := 0 to |modules|
      invariant Collected(modules, i, 0, prefixes, at)
    {
      var m := modules[i];
      var resource := ResourceOf(m.path);
      if resource != "" {
        for k := 0 to |m.controllers|
          invariant Collected(modules, i, k, prefixes, at)
        {
          CollectOneMore(modules, i, k, prefixes, at);
          var c := m.controllers[k].1;
          if c.Documented? && c.idPrefix != "" {
            prefixes, at := prefixes[resource := c.idPrefix], at[resource := (i, k)];
          }
        }
      }
      CollectedModule(modules, i, prefixes, at);
    }
    CollectedIsDeclared(modules, prefixes, at);
  }

  lemma CollectedIsDeclared(modules: seq<Module>, prefixes: Prefixes, at: map<string, (int, int)>)
    requires Collected(modules, |modules|, 0, prefixes, at)
    ensures forall r :: r in prefixes ==> DeclaredIn(modules, r, prefixes[r])
    ensures forall r, p :: DeclaredIn(modules, r, p) ==> r in prefixes
    ensures LastDeclared(modules, prefixes)
  {
    forall r | r in prefixes
      ensures DeclaredIn(modules, r, prefixes[r])
    {
      var (i, k) := at[r];
      assert modules[i].controllers[k] in modules[i].controllers && modules[i] in modules;
      assert Declares(modules[i], r, prefixes[r]);
    }
    forall r, p | DeclaredIn(modules, r, p)
      ensures r in prefixes
    {
      var m :| m in modules && Declares(m, r, p);
      var i :| 0 <= i < |modules| && modules[i] == m;
      var c :| c in m.controllers && c.1.Documented? && c.1.idPrefix == p;
      var k :| 0 <= k < |m.controllers| && m.controllers[k] == c;
      assert DeclaresAt(modules, i, k, r, p);
    }
    forall r, i, k, p | DeclaresAt(modules, i, k, r, p) && NoneLater(modules, i, k, r)
      ensures r in prefixes && prefixes[r] == p
    {
      assert Sooner(i, k, |modules|, 0);
      assert DeclaresAt(modules, at[r].0, at[r].1, r, prefixes[r]);
    }
  }

  /******* The endpoint list *******/

  function DescribeModule(m: Module, prefixes: Prefixes): seq<Endpoint> {
    DescribeControllers(m.path, m.controllers, prefixes)
  }

  function DescribeControllers(path: string, controllers: seq<(Verb, Controller)>, prefixes: Prefixes): seq<Endpoint> {
    if controllers == [] then []
    else [Endpoint(path, controllers[0].0, controllers[0].1, prefixes)]
         + DescribeControllers(path, controllers[1..], prefixes)
  }

  function DescribeAll(modules: seq<Module>, prefixes: Prefixes): seq<Endpoint> {
    if modules == [] then [] else DescribeModule(modules[0], prefixes) + DescribeAll(modules[1..], prefixes)
  }

  predicate PathThenMethod(a: Endpoint, b: Endpoint) {
    if a.path != b.path then TextLe(a.path, b.path) else TextLe(VerbText(a.verb), VerbText(b.verb))
  }

  method Build(modules: seq<Module>) returns (endpoints: seq<Endpoint>, prefixes: Prefixes)
    ensures endpoints == Sort(PathThenMethod, DescribeAll(modules, prefixes))
    ensures forall r :: r in prefixes ==> DeclaredIn(modules, r, prefixes[r])
    ensures forall r, p :: DeclaredIn(modules, r, p) ==> r in prefixes
    ensures LastDeclared(modules, prefixes)
  {
    prefixes := CollectIDPrefixes(modules);
    endpoints := [];
    for i := 0 to |modules|
      invariant endpoints + DescribeAll(modules[i..], prefixes) == DescribeAll(modules, prefixes)
    {
      assert modules[i..][1..] == modules[i + 1..];
      endpoints := endpoints + DescribeModule(modules[i], prefixes);
    }
    assert modules[|modules|..] == [] && endpoints + [] == endpoints;
    endpoints := Sort(PathThenMethod, endpoints);
  }

  /******* The list is complete, and in order *******/

  /** How many controllers the first `i` modules have. */
  function Offset(modules: seq<Module>, i: nat): nat
    requires i <= |modules|
  {
    if i == 0 then 0 else Offset(modules, i - 1) + |modules[i - 1].controllers|
  }

  lemma {:induction false} DescribesEach(path: string, controllers: seq<(Verb, Controller)>, prefixes: Prefixes)
    ensures DescribeControllers(path, controllers, prefixes) ==
            seq(|controllers|, k requires 0 <= k < |controllers| =>
              Endpoint(path, controllers[k].0, controllers[k].1, prefixes))
    decreases |controllers|
  {
    if controllers != [] {
      DescribesEach(path, controllers[1..], prefixes);
    }
  }

  lemma {:induction false} LengthIsOffset(modules: seq<Module>, i: nat, prefixes: Prefixes)
    requires i <= |modules|
    ensures |DescribeAll(modules[..i], prefixes)| == Offset(modules, i)
    decreases i
  {
    if i > 0 {
      var last := modules[i - 1];
      assert modules[..i] == modules[..i - 1] + [last] && [last][1..] == [];
      DescribeAllConcat(modules[..i - 1], [last], prefixes);
      DescribesEach(last.path, last.controllers, prefixes);
      LengthIsOffset(modules, i - 1, prefixes);
    }
  }

  lemma OwnPart(modules: seq<Module>, i: nat, prefixes: Prefixes)
    requires i < |modules|
    ensures DescribeAll(modules, prefixes) ==
            DescribeAll(modules[..i], prefixes)
            + (DescribeModule(modules[i], prefixes) + DescribeAll(modules[i + 1..], prefixes))
  {
    assert modules == modules[..i] + modules[i..] && modules[i..][1..] == modules[i + 1..];
    DescribeAllConcat(modules[..i], modules[i..], prefixes);
  }

  /** Controller `k` of module `i` stands right behind all controllers before it, under its module's path
      and its own method. */
  ghost predicate StandsInPlace(modules: seq<Module>, prefixes: Prefixes, i: int, k: int) {
    0 <= i < |modules| && 0 <= k < |modules[i].controllers| ==>
      var place := Offset(modules, i) + k;
      && place < |DescribeAll(modules, prefixes)|
      && DescribeAll(modules, prefixes)[place] ==
         Endpoint(modules[i].path, modules[i].controllers[k].0, modules[i].controllers[k].1, prefixes)
  }

  /** The list holds every controller of every module once, and nothing else. */
  lemma EachControllerOnce(modules: seq<Module>, prefixes: Prefixes)
    ensures |DescribeAll(modules, prefixes)| == Offset(modules, |modules|)
    ensures forall i, k :: StandsInPlace(modules, prefixes, i, k)
  {
    assert modules[..|modules|] == modules;
    LengthIsOffset(modules, |modules|, prefixes);
    forall i, k
      ensures StandsInPlace(modules, prefixes, i, k)
    {
      if 0 <= i < |modules| && 0 <= k < |modules[i].controllers| {
        LengthIsOffset(modules, i, prefixes);
        OwnPart(modules, i, prefixes);
        DescribesEach(modules[i].path, modules[i].controllers, prefixes);
      }
    }
  }

  /** Where a method stands among the methods of one path. */
  function VerbPlace(v: Verb): nat {
    match v
    case DELETE => 0
    case GET => 1
    case PATCH => 2
    case POST => 3
    case PUT => 4
  }

  lemma VerbsInOrder(a: Verb, b: Verb)
    ensures TextLe(VerbText(a), VerbText(b)) <==> VerbPlace(a) <= VerbPlace(b)
  {
    TextLeIsLexicographic(VerbText(a), VerbText(b));
  }

  /** The list holds the same endpoints sorted: paths ascend, and on one path the methods do. */
  lemma SortedAscends(endpoints: seq<Endpoint>)
    ensures multiset(Sort(PathThenMethod, endpoints)) == multiset(endpoints)
    ensures
      var s := Sort(PathThenMethod, endpoints);
      forall i, j :: 0 <= i < j < |s| ==>
        if s[i].path == s[j].path then VerbPlace(s[i].verb) <= VerbPlace(s[j].verb) else TextLe(s[i].path, s[j].path)
  {
    SortKeepsElements(PathThenMethod, endpoints);
    PathThenMethodOrders();
    SortOrders(PathThenMethod, endpoints);
    var s := Sort(PathThenMethod, endpoints);
    forall i, j | 0 <= i < j < |s|
      ensures if s[i].path == s[j].path then VerbPlace(s[i].verb) <= VerbPlace(s[j].verb) else TextLe(s[i].path, s[j].path)
    {
      assert PathThenMethod(s[i], s[j]);
      VerbsInOrder(s[i].verb, s[j].verb);
    }
  }

  /******* Order independence *******/

  lemma VerbsAreTold(a: Verb, b: Verb)
    requires VerbText(a) == VerbText(b)
    ensures a == b
  {
    assert VerbText(a)[0] == VerbText(b)[0] && VerbText(a)[1] == VerbText(b)[1];
  }

  lemma PathThenMethodOrders()
    ensures TotalPreorder(PathThenMethod)
    ensures forall a, b :: PathThenMethod(a, b) && PathThenMethod(b, a) ==> a.path == b.path && a.verb == b.verb
  {
    TextOrder();
    forall a, b | PathThenMethod(a, b) && PathThenMethod(b, a)
      ensures a.path == b.path && a.verb == b.verb
    {
      VerbsAreTold(a.verb, if VerbText(a.verb) == VerbText(b.verb) then b.verb else a.verb);
    }
  }

  lemma {:induction false} DescribeAllConcat(a: seq<Module>, b: seq<Module>, prefixes: Prefixes)
    ensures DescribeAll(a + b, prefixes) == DescribeAll(a, prefixes) + DescribeAll(b, prefixes)
    decreases |a|
  {
    if a == [] {
      assert a + b == b;
    } else {
      assert (a + b)[1..] == a[1..] + b;
      DescribeAllConcat(a[1..], b, prefixes);
    }
  }

  lemma MoveToFront<T>(before: seq<T>, middle: seq<T>, after: seq<T>)
    ensures multiset(before + (middle + after)) == multiset(middle + (before + after))
  {
  }

  lemma DescribeAllSplits(modules: seq<Module>, k: nat, prefixes: Prefixes)
    requires k < |modules|
    ensures multiset(DescribeAll(modules, prefixes)) ==
            multiset(DescribeModule(modules[k], prefixes) + DescribeAll(modules[..k] + modules[k + 1..], prefixes))
  {
    var before, from, after := modules[..k], modules[k..], modules[k + 1..];
    assert modules == before + from && from[1..] == after;
    DescribeAllConcat(before, from, prefixes);
    DescribeAllConcat(before, after, prefixes);
    MoveToFront(DescribeAll(before, prefixes), DescribeModule(modules[k], prefixes), DescribeAll(after, prefixes));
  }

  lemma SameTail<T>(head: seq<T>, a: seq<T>, b: seq<T>)
    requires multiset(a) == multiset(b)
    ensures multiset(head + a) == multiset(head + b)
  {
  }

  lemma WithoutOne(modules: seq<Module>, k: nat)
    requires k < |modules|
    ensures multiset(modules[..k] + modules[k + 1..]) == multiset(modules) - multiset{modules[k]}
  {
    assert modules == modules[..k] + [modules[k]] + modules[k + 1..];
  }

  lemma HeadIn(a: seq<Module>, b: seq<Module>) returns (k: nat)
    requires multiset(a) == multiset(b) && a != []
    ensures k < |b| && b[k] == a[0]
    ensures multiset(b[..k] + b[k + 1..]) == multiset(a[1..])
  {
    assert a[0] in multiset(b);
    k := PlaceOf(b, a[0]);
    WithoutOne(b, k);
    assert a == [a[0]] + a[1..];
  }

  lemma PlaceOf(s: seq<Module>, x: Module) returns (k: nat)
    requires x in multiset(s)
    ensures k < |s| && s[k] == x
  {
    assert x in s;
    k :| k < |s| && s[k] == x;
  }

  lemma {:induction false} DescribeAllPermutes(a: seq<Module>, b: seq<Module>, prefixes: Prefixes)
    requires multiset(a) == multiset(b)
    ensures multiset(DescribeAll(a, prefixes)) == multiset(DescribeAll(b, prefixes))
    decreases |a|
  {
    if a == [] {
      assert |multiset(b)| == 0 && b == [];
    } else {
      var k := HeadIn(a, b);
      var tail, rest := a[1..], b[..k] + b[k + 1..];
      DescribeAllSplits(b, k, prefixes);
      DescribeAllPermutes(tail, rest, prefixes);
      SameTail(DescribeModule(a[0], prefixes), DescribeAll(tail, prefixes), DescribeAll(rest, prefixes));
    }
  }

  /** No two of the endpoints answer the same method on the same path. */
  ghost predicate RoutesAreTold(endpoints: seq<Endpoint>) {
    forall x, y :: x in endpoints && y in endpoints && x.path == y.path && x.verb == y.verb ==> x == y
  }

  lemma PrefixesDoNotDependOnOrder(a: seq<Module>, b: seq<Module>, p: Prefixes, q: Prefixes)
    requires multiset(a) == multiset(b) && PrefixesAgree(a)
    requires forall r :: r in p ==> DeclaredIn(a, r, p[r])
    requires forall r, t :: DeclaredIn(a, r, t) ==> r in p
    requires forall r :: r in q ==> DeclaredIn(b, r, q[r])
    requires forall r, t :: DeclaredIn(b, r, t) ==> r in q
    ensures p == q
  {
    SameElements(a, b);
    forall r, t
      ensures DeclaredIn(a, r, t) <==> DeclaredIn(b, r, t)
    {
      if DeclaredIn(a, r, t) {
        var m :| m in a && Declares(m, r, t);
        assert m in b;
      }
      if DeclaredIn(b, r, t) {
        var m :| m in b && Declares(m, r, t);
        assert m in a;
      }
    }
  }

  lemma SortedListsAgree(a: seq<Module>, b: seq<Module>, prefixes: Prefixes)
    requires multiset(a) == multiset(b) && RoutesAreTold(DescribeAll(a, prefixes))
    ensures Sort(PathThenMethod, DescribeAll(a, prefixes)) == Sort(PathThenMethod, DescribeAll(b, prefixes))
  {
    var x, y := DescribeAll(a, prefixes), DescribeAll(b, prefixes);
    DescribeAllPermutes(a, b, prefixes);
    SortKeepsElements(PathThenMethod, x);
    SortKeepsElements(PathThenMethod, y);
    SameElements(Sort(PathThenMethod, x), x);
    PathThenMethodOrders();
    SortOrders(PathThenMethod, x);
    SortOrders(PathThenMethod, y);
    OrderedIsUnique(PathThenMethod, Sort(PathThenMethod, x), Sort(PathThenMethod, y));
  }

  /** However the modules were ordered, the document is the same: builds over two orders of the same
      modules, started here one after the other. */
  method BuildTwice(a: seq<Module>, b: seq<Module>) returns (x: seq<Endpoint>, y: seq<Endpoint>)
    requires multiset(a) == multiset(b) && PrefixesAgree(a)
    requires forall prefixes :: RoutesAreTold(DescribeAll(a, prefixes))
    ensures x == y
  {
    var p, q;
    x, p := Build(a);
    y, q := Build(b);
    PrefixesDoNotDependOnOrder(a, b, p, q);
    SortedListsAgree(a, b, p);
  }
}
