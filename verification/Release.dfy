/** Release ordering of workspace packages (scripts/release.ts:414-478). */
module Release {
  import opened Lists

  /** A package name, as UTF-16 code units. */
  type Name = seq<nat>

  datatype Package = Package(name: Name, deps: seq<Name>)

  // ---- the order of `Array.prototype.sort` on strings ----

  predicate Less(a: Name, b: Name) {
    b != [] && (a == [] || a[0] < b[0] || (a[0] == b[0] && Less(a[1..], b[1..])))
  }

  predicate Leq(a: Name, b: Name) { a == b || Less(a, b) }

  /** Where the two part, `a` ends or has the smaller code unit. */
  ghost predicate Before(a: Name, b: Name) {
    exists k :: 0 <= k <= |a| && k < |b| && a[..k] == b[..k] && (k == |a| || a[k] < b[k])
  }

  lemma {:induction false} LessIsBefore(a: Name, b: Name)
    ensures Less(a, b) <==> Before(a, b)
  {
    if a != [] && b != [] && a[0] == b[0] {
      LessIsBefore(a[1..], b[1..]);
      var s, t := a[1..], b[1..];
      if k :| 0 <= k <= |s| && k < |t| && s[..k] == t[..k] && (k == |s| || s[k] < t[k]) {
        assert a[..k + 1] == [a[0]] + a[1..][..k] && b[..k + 1] == [b[0]] + b[1..][..k];
        assert Before(a, b);
      }
      if k :| 0 <= k <= |a| && k < |b| && a[..k] == b[..k] && (k == |a| || a[k] < b[k]) {
        assert k > 0 && a[1..][..k - 1] == a[..k][1..] && b[1..][..k - 1] == b[..k][1..];
        assert Before(a[1..], b[1..]);
      }
    } else if b != [] && (a == [] || a[0] < b[0]) {
      assert a[..0] == b[..0];
    } else {
      assert forall k :: 0 < k <= |a| && k < |b| ==> a[..k][0] == a[0] && b[..k][0] == b[0];
    }
  }

  lemma {:induction false} LeqTrans(a: Name, b: Name, c: Name)
    requires Leq(a, b) && Leq(b, c)
    ensures Leq(a, c)
  {
    if a != b && b != c && a != [] && a[0] == b[0] && b[0] == c[0] {
      LeqTrans(a[1..], b[1..], c[1..]);
      assert a == [a[0]] + a[1..] && c == [c[0]] + c[1..];
    }
  }

  lemma {:induction false} LeqTotal(a: Name, b: Name)
    ensures Leq(a, b) || Leq(b, a)
  {
    if a != [] && b != [] && a[0] == b[0] {
      LeqTotal(a[1..], b[1..]);
      assert a == [a[0]] + a[1..] && b == [b[0]] + b[1..];
    }
  }

  // ---- sorting ----

  function Insert<T>(x: T, s: seq<T>, before: (T, T) -> bool): (r: seq<T>)
    ensures multiset(r) == multiset(s) + multiset{x}
  {
    if s == [] || before(x, s[0]) then [x] + s
    else
      assert s == [s[0]] + s[1..];
      [s[0]] + Insert(x, s[1..], before)
  }

  /** A stable sort by a comparison. */
  function Sort<T>(s: seq<T>, before: (T, T) -> bool): (r: seq<T>)
    ensures multiset(r) == multiset(s)
  {
    if s == [] then []
    else
      assert s == [s[0]] + s[1..];
      Insert(s[0], Sort(s[1..], before), before)
  }

  ghost predicate TotalPreorder<T(!new)>(before: (T, T) -> bool) {
    && (forall a, b :: before(a, b) || before(b, a))
    && (forall a, b, c :: before(a, b) && before(b, c) ==> before(a, c))
  }

  ghost predicate Sorted<T>(s: seq<T>, before: (T, T) -> bool) {
    forall i, j :: 0 <= i < j < |s| ==> before(s[i], s[j])
  }

  lemma {:induction false} InsertSorts<T(!new)>(x: T, s: seq<T>, before: (T, T) -> bool)
    requires TotalPreorder(before) && Sorted(s, before)
    ensures Sorted(Insert(x, s, before), before)
  {
    if s != [] && !before(x, s[0]) {
      InsertSorts(x, s[1..], before);
      var t := Insert(x, s[1..], before);
      forall j | 0 <= j < |t|
        ensures before(s[0], t[j])
      {
        assert t[j] in multiset(t);
        assert t[j] == x || t[j] in s[1..];
      }
    }
  }

  /** By a total preorder, the sort sorts. */
  lemma {:induction false} SortSorts<T(!new)>(s: seq<T>, before: (T, T) -> bool)
    requires TotalPreorder(before)
    ensures Sorted(Sort(s, before), before)
  {
    if s != [] {
      SortSorts(s[1..], before);
      InsertSorts(s[0], Sort(s[1..], before), before);
    }
  }

  /** What `s` holds that the comparison does not tell from `x`, in order. */
  function Like<T>(s: seq<T>, before: (T, T) -> bool, x: T): seq<T> {
    if s == [] then [] else (if before(s[0], x) && before(x, s[0]) then [s[0]] else []) + Like(s[1..], before, x)
  }

  lemma {:induction false} InsertIsStable<T(!new)>(y: T, s: seq<T>, before: (T, T) -> bool, x: T)
    requires TotalPreorder(before)
    ensures Like(Insert(y, s, before), before, x) == Like([y] + s, before, x)
  {
    assert ([y] + s)[1..] == s;
    if s != [] && !before(y, s[0]) {
      InsertIsStable(y, s[1..], before, x);
      assert ([y] + s[1..])[1..] == s[1..];
      assert ([s[0]] + Insert(y, s[1..], before))[1..] == Insert(y, s[1..], before);
    }
  }

  /** And it keeps the order of what compares equal. */
  lemma {:induction false} SortIsStable<T(!new)>(s: seq<T>, before: (T, T) -> bool, x: T)
    requires TotalPreorder(before)
    ensures Like(Sort(s, before), before, x) == Like(s, before, x)
  {
    if s != [] {
      SortIsStable(s[1..], before, x);
      InsertIsStable(s[0], Sort(s[1..], before), before, x);
      assert ([s[0]] + Sort(s[1..], before))[1..] == Sort(s[1..], before);
    }
  }

  lemma LeqIsTotalPreorder()
    ensures TotalPreorder(Leq)
  {
    forall a, b
      ensures Leq(a, b) || Leq(b, a)
    {
      LeqTotal(a, b);
    }
    forall a, b, c | Leq(a, b) && Leq(b, c)
      ensures Leq(a, c)
    {
      LeqTrans(a, b, c);
    }
  }

  lemma SortedHead(s: seq<Name>)
    requires s != []
    ensures Sort(s, Leq) != [] && forall n :: n in s ==> Leq(Sort(s, Leq)[0], n)
  {
    hide Less, Sort;
    LeqIsTotalPreorder();
    SortSorts(s, Leq);
    var t := Sort(s, Leq);
    assert |multiset(t)| == |multiset(s)|;
    forall n | n in s
      ensures Leq(t[0], n)
    {
      assert n in multiset(s) && n in multiset(t);
      var k :| 0 <= k < |t| && t[k] == n;
    }
  }

  // ---- graphs ----

  /** Names are unique, and no package lists a dependency twice. */
  predicate WellFormed(ps: seq<Package>) {
    && (forall i, j :: 0 <= i < j < |ps| ==> ps[i].name != ps[j].name)
    && (forall i :: 0 <= i < |ps| ==> Distinct(ps[i].deps))
  }

  function Names(ps: seq<Package>): set<Name> { set i | 0 <= i < |ps| :: ps[i].name }

  function Find(ps: seq<Package>, n: Name): (p: Package)
    requires n in Names(ps)
    ensures p in ps && p.name == n
  {
    if ps[0].name == n then ps[0]
    else
      assert ps == [ps[0]] + ps[1..];
      Find(ps[1..], n)
  }

  lemma FindIs(ps: seq<Package>, i: nat)
    requires WellFormed(ps) && i < |ps|
    ensures ps[i].name in Names(ps) && Find(ps, ps[i].name) == ps[i]
  {
    var p := Find(ps, ps[i].name);
    var j :| 0 <= j < |ps| && ps[j] == p;
    assert ps[j].name == ps[i].name;
  }

  /** The dependencies that are packages themselves. */
  function Needs(ps: seq<Package>, n: Name): set<Name>
    requires n in Names(ps)
  {
    Elements(Find(ps, n).deps) * Names(ps)
  }

  /** How many of its known dependencies are still to be published. */
  function Left(ps: seq<Package>, n: Name, done: set<Name>): int
    requires n in Names(ps)
  {
    |Needs(ps, n) - done|
  }

  /** What can be published once `done` is. */
  function Ready(ps: seq<Package>, done: set<Name>): set<Name> {
    set n | n in Names(ps) && n !in done && Needs(ps, n) <= done
  }

  ghost predicate Least(n: Name, s: set<Name>) { n in s && forall m :: m in s ==> m == n || Before(n, m) }

  /** Each name is the least that was ready when it was taken, and none is ready in the end. */
  ghost predicate Greedy(ps: seq<Package>, order: seq<Name>) {
    && (forall i :: 0 <= i < |order| ==> Least(order[i], Ready(ps, Elements(order[..i]))))
    && Ready(ps, Elements(order)) == {}
  }

  // ---- publishOrder ----

  function KnownDeps(deps: seq<Name>, names: set<Name>): seq<Name> {
    if deps == [] then []
    else (if deps[0] in names then [deps[0]] else []) + KnownDeps(deps[1..], names)
  }

  lemma {:induction false} KnownDepsCount(deps: seq<Name>, names: set<Name>)
    requires Distinct(deps)
    ensures |KnownDeps(deps, names)| == |Elements(deps) * names|
  {
    if deps != [] {
      KnownDepsCount(deps[1..], names);
      var rest := Elements(deps[1..]) * names;
      assert deps[0] !in deps[1..];
      if deps[0] in names {
        assert Elements(deps) * names == rest + {deps[0]};
      } else {
        assert Elements(deps) * names == rest;
      }
    }
  }

  /** The map holds, for every package, how many of its known dependencies are still to be published. */
  ghost predicate Counts(ps: seq<Package>, indegree: map<Name, int>, done: set<Name>) {
    && indegree.Keys == Names(ps)
    && forall n :: n in Names(ps) ==> indegree[n] == Left(ps, n, done)
  }

  ghost predicate Queues(queue: seq<Name>, ready: set<Name>) {
    Distinct(queue) && forall n :: n in queue <==> n in ready
  }

  lemma CountStep(needs: set<Name>, done: set<Name>, name: Name)
    requires name !in done
    ensures |needs - (done + {name})| == |needs - done| - (if name in needs then 1 else 0)
    ensures |needs - (done + {name})| == 0 <==> needs <= done + {name}
  {
    var rest := needs - (done + {name});
    if name in needs {
      assert needs - done == rest + {name};
    } else {
      assert needs - done == rest;
    }
    if |rest| == 0 { assert rest == {}; }
    if needs <= done + {name} { assert rest == {}; }
  }

  /** Only packages that need `name` become ready by publishing it. */
  lemma ReadyStep(ps: seq<Package>, done: set<Name>, name: Name, n: Name)
    requires name in Ready(ps, done)
    ensures n in Ready(ps, done + {name}) <==>
            (n in Ready(ps, done) && n != name)
            || (n in Names(ps) && n !in done + {name} && name in Needs(ps, n) && Needs(ps, n) <= done + {name})
  {
  }

  /** Published packages have all their known dependencies published. */
  ghost predicate Settled(ps: seq<Package>, done: set<Name>) {
    done <= Names(ps) && forall n :: n in done ==> Needs(ps, n) <= done
  }

  /** The first `j` packages have heard that `name` was published. */
  ghost predicate Told(ps: seq<Package>, j: nat, indegree: map<Name, int>, done: set<Name>, name: Name)
    requires j <= |ps|
  {
    && indegree.Keys == Names(ps)
    && (forall i :: 0 <= i < j ==> indegree[ps[i].name] == Left(ps, ps[i].name, done + {name}))
    && (forall i :: j <= i < |ps| ==> indegree[ps[i].name] == Left(ps, ps[i].name, done))
  }

  /** The queue holds what was ready before, and of the first `j` packages those that `name` made ready. */
  ghost predicate QueuedSoFar(ps: seq<Package>, j: nat, queue: seq<Name>, done: set<Name>, name: Name)
    requires j <= |ps|
  {
    && Distinct(queue)
    && (forall n :: n in queue ==> n in Ready(ps, done + {name}))
    && (forall n :: n in Ready(ps, done) && n != name ==> n in queue)
    && (forall i :: 0 <= i < j && ps[i].name in Ready(ps, done + {name}) ==> ps[i].name in queue)
    && (forall i :: j <= i < |ps| && ps[i].name in queue ==> ps[i].name in Ready(ps, done))
  }

  /** One package hears of `name`: its count is what remains, and it is newly ready exactly when that is zero. */
  lemma Hears(ps: seq<Package>, j: nat, done: set<Name>, name: Name)
    requires WellFormed(ps) && j < |ps| && Settled(ps, done) && name in Ready(ps, done)
    ensures var n := ps[j].name;
      && n in Names(ps) && (name in ps[j].deps <==> name in Needs(ps, n))
      && Left(ps, n, done + {name}) == Left(ps, n, done) - (if name in Needs(ps, n) then 1 else 0)
      && (name in Needs(ps, n) ==>
            n !in Ready(ps, done) && (n in Ready(ps, done + {name}) <==> Left(ps, n, done + {name}) == 0))
      && (name !in Needs(ps, n) ==> (n in Ready(ps, done + {name}) <==> n in Ready(ps, done) && n != name))
  {
    hide Find;
    var n := ps[j].name;
    FindIs(ps, j);
    CountStep(Needs(ps, n), done, name);
    ReadyStep(ps, done, name, n);
    if name in Needs(ps, n) { assert n !in done && n != name; }
  }

  lemma TellsOne(ps: seq<Package>, j: nat, indegree: map<Name, int>, done: set<Name>, name: Name)
    requires WellFormed(ps) && j < |ps| && Settled(ps, done) && name in Ready(ps, done)
    requires Told(ps, j, indegree, done, name)
    ensures var n := ps[j].name;
      && n in indegree
      && Told(ps, j + 1, if name in ps[j].deps then indegree[n := indegree[n] - 1] else indegree, done, name)
      && (name in ps[j].deps ==> indegree[n] - 1 == Left(ps, n, done + {name}))
  {
    hide Needs, Ready, Left, Settled;
    Hears(ps, j, done, name);
    assert forall i :: 0 <= i < |ps| && i != j ==> ps[i].name != ps[j].name;
  }

  lemma QueuesOne(ps: seq<Package>, j: nat, queue: seq<Name>, done: set<Name>, name: Name)
    requires WellFormed(ps) && j < |ps| && Settled(ps, done) && name in Ready(ps, done)
    requires QueuedSoFar(ps, j, queue, done, name)
    ensures var n := ps[j].name;
      n in Names(ps) && QueuedSoFar(ps, j + 1,
        if name in ps[j].deps && Left(ps, n, done + {name}) == 0 then queue + [n] else queue, done, name)
  {
    hide Needs, Ready, Left, Settled;
    Hears(ps, j, done, name);
    assert forall i :: 0 <= i < |ps| && i != j ==> ps[i].name != ps[j].name;
  }

  /** The inner loop of `publishOrder`. */
  method Announce(ps: seq<Package>, name: Name, counts: map<Name, int>, waiting: seq<Name>, ghost done: set<Name>)
    returns (indegree: map<Name, int>, queue: seq<Name>)
    requires WellFormed(ps) && Settled(ps, done) && name in Ready(ps, done)
    requires Told(ps, 0, counts, done, name) && QueuedSoFar(ps, 0, waiting, done, name)
    ensures Told(ps, |ps|, indegree, done, name) && QueuedSoFar(ps, |ps|, queue, done, name)
  {
    hide Needs, Ready, Names, Settled, QueuedSoFar, Left, Told;
    indegree, queue := counts, waiting;
    for j := 0 to |ps|
      invariant Told(ps, j, indegree, done, name)
      invariant QueuedSoFar(ps, j, queue, done, name)
    {
      var other := ps[j];
      TellsOne(ps, j, indegree, done, name);
      QueuesOne(ps, j, queue, done, name);
      assert other.name in indegree;
      if name !in other.deps { continue; }
      var next := indegree[other.name] - 1;
      indegree := indegree[other.name := next];
      if next == 0 {
        queue := queue + [other.name];
      }
    }
  }

  lemma AllTold(ps: seq<Package>, indegree: map<Name, int>, queue: seq<Name>, done: set<Name>, name: Name)
    requires Told(ps, |ps|, indegree, done, name) && QueuedSoFar(ps, |ps|, queue, done, name)
    ensures Counts(ps, indegree, done + {name}) && Queues(queue, Ready(ps, done + {name}))
  {
    forall n | n in Ready(ps, done + {name})
      ensures n in queue
    {
      var i :| 0 <= i < |ps| && ps[i].name == n;
    }
  }

  /** `packages.filter(indegree is zero).map(name)`. */
  method InitialQueue(ps: seq<Package>, indegree: map<Name, int>) returns (queue: seq<Name>)
    requires WellFormed(ps) && Counts(ps, indegree, {})
    ensures Queues(queue, Ready(ps, {}))
  {
    hide Needs, Ready, Left, Names;
    queue := [];
    for i := 0 to |ps|
      invariant Distinct(queue)
      invariant forall n :: n in queue ==> n in Ready(ps, {}) && n in Names(ps[..i])
      invariant forall k :: 0 <= k < i && ps[k].name in Ready(ps, {}) ==> ps[k].name in queue
    {
      ReadyAtFirst(ps, i);
      if indegree[ps[i].name] == 0 { queue := queue + [ps[i].name]; }
    }
    forall n | n in Ready(ps, {})
      ensures n in queue
    {
      var k := IndexInNames(ps, n);
    }
  }

  lemma ReadyAtFirst(ps: seq<Package>, i: nat)
    requires WellFormed(ps) && i < |ps|
    ensures var n := ps[i].name;
      && n in Names(ps) && n !in Names(ps[..i]) && n in Names(ps[..i + 1]) && Names(ps[..i]) <= Names(ps[..i + 1])
      && (n in Ready(ps, {}) <==> Left(ps, n, {}) == 0)
  {
    hide Needs;
    var n := ps[i].name;
    EmptyCount(Needs(ps, n));
    assert ps[..i + 1][i] == ps[i];
    assert forall k :: 0 <= k < i ==> ps[..i + 1][k] == ps[..i][k];
  }

  lemma IndexInNames(ps: seq<Package>, n: Name) returns (k: nat)
    requires n in Ready(ps, {})
    ensures k < |ps| && ps[k].name == n
  {
    k :| 0 <= k < |ps| && ps[k].name == n;
  }

  lemma EmptyCount(s: set<Name>)
    ensures |s - {}| == 0 <==> s <= {}
  {
    assert s - {} == s;
  }

  function Leftover(ps: seq<Package>, order: seq<Name>): (r: seq<Package>)
    ensures forall p :: p in r <==> p in ps && p.name !in order
  {
    if ps == [] then []
    else
      assert ps == [ps[0]] + ps[1..];
      (if ps[0].name !in order then [ps[0]] else []) + Leftover(ps[1..], order)
  }

  lemma InitialCounts(ps: seq<Package>)
    requires WellFormed(ps)
    ensures Counts(ps, map n | n in Names(ps) :: |KnownDeps(Find(ps, n).deps, Names(ps))|, {})
  {
    forall n | n in Names(ps)
      ensures |KnownDeps(Find(ps, n).deps, Names(ps))| == |Needs(ps, n) - {}|
    {
      var i :| 0 <= i < |ps| && ps[i].name == n;
      FindIs(ps, i);
      KnownDepsCount(ps[i].deps, Names(ps));
      assert Needs(ps, n) - {} == Needs(ps, n);
    }
  }

  /** A run of the loop so far. */
  ghost predicate GreedySoFar(ps: seq<Package>, order: seq<Name>) {
    forall i :: 0 <= i < |order| ==> Least(order[i], Ready(ps, Elements(order[..i])))
  }

  lemma Extends(ps: seq<Package>, order: seq<Name>, name: Name)
    requires GreedySoFar(ps, order) && Settled(ps, Elements(order)) && Least(name, Ready(ps, Elements(order)))
    ensures GreedySoFar(ps, order + [name]) && Settled(ps, Elements(order + [name]))
    ensures Elements(order + [name]) == Elements(order) + {name}
    ensures |Names(ps) - Elements(order + [name])| < |Names(ps) - Elements(order)|
  {
    hide Needs, Least;
    var o := order + [name];
    assert name in Ready(ps, Elements(order)) by { LeastIn(name, Ready(ps, Elements(order))); }
    assert Elements(o) == Elements(order) + {name};
    forall i | 0 <= i < |o|
      ensures Least(o[i], Ready(ps, Elements(o[..i])))
    {
      assert i < |order| ==> o[..i] == order[..i];
      assert i == |order| ==> o[..i] == order;
    }
    var rest := Names(ps) - Elements(o);
    assert Names(ps) - Elements(order) == rest + {name};
  }

  lemma LeastIn(n: Name, s: set<Name>)
    requires Least(n, s)
    ensures n in s
  {
  }

  /** What `shift` leaves of the sorted queue. */
  lemma Shifted(ps: seq<Package>, queue: seq<Name>, done: set<Name>)
    requires queue != [] && Queues(queue, Ready(ps, done))
    ensures var sorted := Sort(queue, Leq);
      && sorted != [] && Least(sorted[0], Ready(ps, done))
      && (sorted[0] !in done ==> QueuedSoFar(ps, 0, sorted[1..], done, sorted[0]))
  {
    hide Needs, Before, Less, Sort, Ready;
    var sorted := Sort(queue, Leq);
    SortedHead(queue);
    forall m | m in queue
      ensures m == sorted[0] || Before(sorted[0], m)
    {
      LessIsBefore(sorted[0], m);
    }
    SortKeeps(queue, Leq);
    assert sorted == [sorted[0]] + sorted[1..];
    var name := sorted[0];
    if name !in done {
      forall n | n in sorted[1..]
        ensures n in Ready(ps, done + {name})
      {
        ReadyStep(ps, done, name, n);
      }
    }
  }

  lemma SortKeeps(s: seq<Name>, before: (Name, Name) -> bool)
    ensures forall n :: n in Sort(s, before) <==> n in s
    ensures Distinct(s) ==> Distinct(Sort(s, before))
  {
    var t := Sort(s, before);
    assert forall n :: n in t <==> n in multiset(t);
    assert forall n :: n in s <==> n in multiset(s);
    if Distinct(s) {
      DistinctCount(s);
      CountDistinct(t);
    }
  }

  lemma {:induction false} CountDistinct<T>(s: seq<T>)
    requires forall x :: multiset(s)[x] <= 1
    ensures Distinct(s)
  {
    if s != [] {
      assert s == [s[0]] + s[1..];
      assert multiset(s) == multiset{s[0]} + multiset(s[1..]);
      assert multiset(s)[s[0]] == 1 + multiset(s[1..])[s[0]];
      forall x
        ensures multiset(s[1..])[x] <= 1
      {
        assert multiset(s)[x] >= multiset(s[1..])[x];
      }
      CountDistinct(s[1..]);
    }
  }

  lemma {:induction false} DistinctCount<T>(s: seq<T>)
    requires Distinct(s)
    ensures forall x :: multiset(s)[x] == if x in s then 1 else 0
  {
    if s != [] {
      DistinctCount(s[1..]);
      assert s == [s[0]] + s[1..];
      assert s[0] !in s[1..];
    }
  }

  /** `publishOrder`: a greedy order of what can be ordered, then the rest sorted by `before`. */
  method PublishOrder(ps: seq<Package>, before: (Package, Package) -> bool)
    returns (r: seq<Package>, ghost order: seq<Name>)
    requires WellFormed(ps)
    ensures Greedy(ps, order)
    ensures |order| <= |r| && forall i :: 0 <= i < |order| ==> r[i].name == order[i]
    ensures r[|order|..] == Sort(Leftover(ps, order), before)
    ensures multiset(r) == multiset(ps)
  {
    hide Needs, Ready, Leq, Less, Names, Least;
    var indegree := map n | n in Names(ps) :: |KnownDeps(Find(ps, n).deps, Names(ps))|;
    InitialCounts(ps);
    var queue := InitialQueue(ps, indegree);
    var ordered: seq<Name> := [];
    assert Elements(ordered) == {};
    while queue != []
      invariant GreedySoFar(ps, ordered) && Settled(ps, Elements(ordered))
      invariant Counts(ps, indegree, Elements(ordered))
      invariant Queues(queue, Ready(ps, Elements(ordered)))
      decreases |Names(ps) - Elements(ordered)|
    {
      ghost var done := Elements(ordered);
      Shifted(ps, queue, done);
      queue := Sort(queue, Leq);
      var name := queue[0];
      queue := queue[1..];
      LeastIn(name, Ready(ps, done));
      ReadyIsNew(ps, done, name);
      NoneTold(ps, indegree, done, name);
      indegree, queue := Announce(ps, name, indegree, queue, done);
      AllTold(ps, indegree, queue, done, name);
      Extends(ps, ordered, name);
      ordered := ordered + [name];
    }
    assert Ready(ps, Elements(ordered)) == {} by { NothingQueued(Ready(ps, Elements(ordered))); }
    order := ordered;
    r := Assemble(ps, ordered, before);
  }

  lemma NothingQueued(s: set<Name>)
    requires Queues([], s)
    ensures s == {}
  {
    assert forall n :: n in s ==> n in [];
  }

  lemma ReadyIsNew(ps: seq<Package>, done: set<Name>, name: Name)
    requires name in Ready(ps, done)
    ensures name !in done
  {
  }

  lemma NoneTold(ps: seq<Package>, indegree: map<Name, int>, done: set<Name>, name: Name)
    requires Counts(ps, indegree, done)
    ensures Told(ps, 0, indegree, done, name)
  {
    assert forall i :: 0 <= i < |ps| ==> ps[i].name in Names(ps);
  }

  /** `ordered` looked up by name, and the packages it does not name. */
  method Assemble(ps: seq<Package>, ordered: seq<Name>, before: (Package, Package) -> bool) returns (r: seq<Package>)
    requires WellFormed(ps) && GreedySoFar(ps, ordered)
    ensures |ordered| <= |r| && forall i :: 0 <= i < |ordered| ==> r[i].name == ordered[i]
    ensures r[|ordered|..] == Sort(Leftover(ps, ordered), before)
    ensures multiset(r) == multiset(ps)
  {
    GreedyIsTopological(ps, ordered);
    var front := [];
    for i := 0 to |ordered|
      invariant |front| == i
      invariant forall k :: 0 <= k < i ==> front[k] in ps && front[k].name == ordered[k]
    {
      front := front + [Find(ps, ordered[i])];
    }
    var remaining := Leftover(ps, ordered);
    r := front + Sort(remaining, before);
    Rearranged(ps, ordered, front);
    assert multiset(r) == multiset(front) + multiset(Sort(remaining, before));
  }

  lemma {:induction false} LeftoverCount(ps: seq<Package>, order: seq<Name>, p: Package)
    ensures multiset(Leftover(ps, order))[p] == if p.name in order then 0 else multiset(ps)[p]
  {
    if ps != [] {
      LeftoverCount(ps[1..], order, p);
      assert ps == [ps[0]] + ps[1..];
    }
  }

  lemma Rearranged(ps: seq<Package>, ordered: seq<Name>, front: seq<Package>)
    requires WellFormed(ps) && Distinct(ordered) && |front| == |ordered|
    requires forall k :: 0 <= k < |front| ==> front[k] in ps && front[k].name == ordered[k]
    ensures multiset(front) + multiset(Leftover(ps, ordered)) == multiset(ps)
  {
    hide Leftover;
    DistinctCount(front);
    DistinctCount(ps);
    forall p: Package
      ensures multiset(front)[p] + multiset(Leftover(ps, ordered))[p] == multiset(ps)[p]
    {
      LeftoverCount(ps, ordered, p);
      if p in ps && p.name in ordered {
        var k :| 0 <= k < |ordered| && ordered[k] == p.name;
        SameName(ps, p, front[k]);
      }
    }
  }

  lemma SameName(ps: seq<Package>, p: Package, q: Package)
    requires WellFormed(ps) && p in ps && q in ps && p.name == q.name
    ensures p == q
  {
    var i :| 0 <= i < |ps| && ps[i] == p;
    var j :| 0 <= j < |ps| && ps[j] == q;
  }

  lemma GreedyIsTopological(ps: seq<Package>, order: seq<Name>)
    requires GreedySoFar(ps, order)
    ensures Distinct(order) && Elements(order) <= Names(ps)
    ensures forall i :: 0 <= i < |order| ==> order[i] in Names(ps) && Needs(ps, order[i]) <= Elements(order[..i])
  {
    forall i | 0 <= i < |order|
      ensures order[i] in Names(ps) && Needs(ps, order[i]) <= Elements(order[..i])
      ensures forall j :: 0 <= j < i ==> order[j] != order[i]
    {
      assert order[i] in Ready(ps, Elements(order[..i]));
      forall j | 0 <= j < i
        ensures order[j] != order[i]
      {
        assert order[..i][j] in Elements(order[..i]);
      }
    }
  }

  // ---- what the order means ----

  /** A walk along dependencies. */
  ghost predicate Walk(ps: seq<Package>, path: seq<Name>) {
    && path != [] && (forall i :: 0 <= i < |path| ==> path[i] in Names(ps))
    && forall i :: 0 < i < |path| ==> path[i] in Needs(ps, path[i - 1])
  }

  /** A walk from `n` comes to some package twice. */
  ghost predicate ReachesCycle(ps: seq<Package>, n: Name) {
    exists path :: Walk(ps, path) && path[0] == n && !Distinct(path)
  }

  function IndexOf(s: seq<Name>, n: Name): (i: nat)
    requires n in s
    ensures i < |s| && s[i] == n && forall k :: 0 <= k < i ==> s[k] != n
  {
    if s[0] == n then 0 else IndexOf(s[1..], n) + 1
  }

  /** Along a walk through ordered packages the positions go down. */
  lemma {:induction false} WalkDescends(ps: seq<Package>, order: seq<Name>, path: seq<Name>, i: nat, j: nat)
    requires GreedySoFar(ps, order) && Walk(ps, path) && i < j < |path| && path[i] in order
    ensures path[j] in order && IndexOf(order, path[j]) < IndexOf(order, path[i])
    decreases j - i
  {
    hide Needs, GreedySoFar;
    GreedyIsTopological(ps, order);
    var k := IndexOf(order, path[i]);
    assert path[i + 1] in Needs(ps, path[i]);
    assert path[i + 1] in order[..k];
    if i + 1 < j { WalkDescends(ps, order, path, i + 1, j); }
  }

  /** From a package that never became ready one can walk on for ever. */
  lemma {:induction false} StuckWalk(ps: seq<Package>, order: seq<Name>, n: Name, steps: nat) returns (path: seq<Name>)
    requires Greedy(ps, order) && n in Names(ps) && n !in order
    ensures Walk(ps, path) && path[0] == n && |path| == steps + 1
    decreases steps
  {
    hide Needs;
    if steps == 0 { return [n]; }
    assert n !in Ready(ps, Elements(order));
    var m :| m in Needs(ps, n) && m !in Elements(order);
    NeedsAreNames(ps, n);
    var rest := StuckWalk(ps, order, m, steps - 1);
    path := [n] + rest;
  }

  lemma NeedsAreNames(ps: seq<Package>, n: Name)
    requires n in Names(ps)
    ensures Needs(ps, n) <= Names(ps)
  {
  }

  lemma {:induction false} Pigeonhole(s: seq<Name>, holes: set<Name>)
    requires Distinct(s) && forall i :: 0 <= i < |s| ==> s[i] in holes
    ensures |s| <= |holes|
  {
    if s != [] {
      Pigeonhole(s[1..], holes - {s[0]});
    }
  }

  /** The appended leftovers are exactly the packages from which a dependency cycle is reachable. */
  lemma LeftoversReachCycles(ps: seq<Package>, order: seq<Name>, n: Name)
    requires Greedy(ps, order) && n in Names(ps)
    ensures n !in order <==> ReachesCycle(ps, n)
  {
    hide Needs;
    if n !in order {
      var path := StuckWalk(ps, order, n, |Names(ps)|);
      if Distinct(path) { Pigeonhole(path, Names(ps)); }
    } else {
      forall path | Walk(ps, path) && path[0] == n
        ensures Distinct(path)
      {
        forall i, j | 0 <= i < j < |path|
          ensures path[i] != path[j]
        {
          if i > 0 { WalkDescends(ps, order, path, 0, i); }
          WalkDescends(ps, order, path, i, j);
        }
      }
    }
  }

  /** All packages, each behind everything it depends on. */
  ghost predicate Topological(ps: seq<Package>, t: seq<Name>) {
    && Distinct(t) && Elements(t) == Names(ps)
    && forall i :: 0 <= i < |t| ==> Needs(ps, t[i]) <= Elements(t[..i])
  }

  /** `a` is `b`, or has the smaller name where they first differ. */
  ghost predicate NoLater(a: seq<Name>, b: seq<Name>) {
    a == b || exists k :: 0 <= k < |a| && k < |b| && a[..k] == b[..k] && a[k] != b[k] && Before(a[k], b[k])
  }

  /** Without cycles the order holds every package behind its dependencies, and no such order is
      lexicographically smaller. */
  lemma LeastDependencyOrder(ps: seq<Package>, order: seq<Name>, other: seq<Name>)
    requires Greedy(ps, order) && forall n :: n in Names(ps) ==> !ReachesCycle(ps, n)
    ensures Topological(ps, order)
    ensures Topological(ps, other) ==> NoLater(order, other)
  {
    hide Needs, ReachesCycle, Before;
    GreedyIsTopological(ps, order);
    forall n | n in Names(ps)
      ensures n in order
    {
      LeftoversReachCycles(ps, order, n);
    }
    assert Elements(order) == Names(ps);
    if Topological(ps, other) {
      Pigeonhole(order, Names(ps));
      Pigeonhole(other, Names(ps));
      SameLength(order, other);
      if order != other {
        var k := FirstDifference(order, other);
        TakenLeast(ps, order, other, k);
      }
    }
  }

  lemma SameLength(a: seq<Name>, b: seq<Name>)
    requires Distinct(a) && Distinct(b) && Elements(a) == Elements(b)
    ensures |a| == |b|
  {
    DistinctSize(a);
    DistinctSize(b);
  }

  lemma {:induction false} DistinctSize(s: seq<Name>)
    requires Distinct(s)
    ensures |Elements(s)| == |s|
  {
    if s == [] {
      assert Elements(s) == {};
    } else {
      DistinctSize(s[1..]);
      assert s[0] !in s[1..];
      assert Elements(s) == Elements(s[1..]) + {s[0]};
    }
  }

  lemma {:induction false} FirstDifference(a: seq<Name>, b: seq<Name>) returns (k: nat)
    requires |a| == |b| && a != b
    ensures k < |a| && a[..k] == b[..k] && a[k] != b[k]
    decreases |a|
  {
    if a[0] != b[0] { return 0; }
    assert a == [a[0]] + a[1..] && b == [b[0]] + b[1..];
    k := FirstDifference(a[1..], b[1..]);
    assert a[..k + 1] == [a[0]] + a[1..][..k] && b[..k + 1] == [b[0]] + b[1..][..k];
    k := k + 1;
  }

  lemma TakenLeast(ps: seq<Package>, order: seq<Name>, other: seq<Name>, k: nat)
    requires Greedy(ps, order) && Topological(ps, other) && k < |order| && k < |other|
    requires order[..k] == other[..k] && order[k] != other[k]
    ensures Before(order[k], other[k])
  {
    hide Needs, Before;
    var done := Elements(order[..k]);
    assert other[k] in Elements(other);
    assert other[k] !in other[..k];
    assert other[k] in Ready(ps, done);
  }

  // ---- expandDependents ----

  /** Closed under "depends on a member". */
  predicate Closed(ps: seq<Package>, s: set<Name>) {
    forall i, d :: 0 <= i < |ps| && d in ps[i].deps && d in s ==> ps[i].name in s
  }

  function Keep(ps: seq<Package>, s: set<Name>): seq<Package> {
    if ps == [] then [] else (if ps[0].name in s then [ps[0]] else []) + Keep(ps[1..], s)
  }

  /** `r` is what stands in `ps` at the places `at`, in that order: all the places with a name in `s`. */
  ghost predicate InPlaces(r: seq<Package>, ps: seq<Package>, at: seq<nat>, s: set<Name>) {
    && |r| == |at| && (forall k :: 0 <= k < |at| ==> at[k] < |ps| && r[k] == ps[at[k]])
    && (forall j, k :: 0 <= j < k < |at| ==> at[j] < at[k])
    && (forall i: nat :: i in at <==> i < |ps| && ps[i].name in s)
  }

  lemma {:induction false} KeepInOrder(ps: seq<Package>, s: set<Name>) returns (at: seq<nat>)
    ensures InPlaces(Keep(ps, s), ps, at, s)
    decreases |ps|
  {
    if ps == [] { return []; }
    var n := |ps| - 1;
    at := KeepInOrder(ps[..n], s);
    KeepLast(ps, s);
    assert forall i: nat :: i < n ==> ps[..n][i] == ps[i];
    if ps[n].name in s { at := at + [n]; }
  }

  lemma {:induction false} KeepLast(ps: seq<Package>, s: set<Name>)
    requires ps != []
    ensures var n := |ps| - 1; Keep(ps, s) == Keep(ps[..n], s) + (if ps[n].name in s then [ps[n]] else [])
  {
    if |ps| > 1 {
      KeepLast(ps[1..], s);
      assert ps[1..][..|ps| - 2] == ps[..|ps| - 1][1..];
    }
  }

  lemma {:induction false} KeepIs(ps: seq<Package>, s: set<Name>)
    ensures forall p :: p in Keep(ps, s) <==> p in ps && p.name in s
  {
    if ps != [] { KeepIs(ps[1..], s); }
  }

  /** The packages of `ps[..j]` and the first `k` dependencies of `ps[j]`, by dependency. */
  ghost predicate Indexed(ps: seq<Package>, j: nat, k: nat, dependents: map<Name, seq<Name>>)
    requires j <= |ps|
  {
    && (forall i, d :: 0 <= i < j && d in ps[i].deps ==> d in dependents && ps[i].name in dependents[d])
    && (j < |ps| ==> forall m :: 0 <= m < k && m < |ps[j].deps| ==>
          ps[j].deps[m] in dependents && ps[j].name in dependents[ps[j].deps[m]])
    && (forall d, n :: d in dependents && n in dependents[d] ==>
          exists i :: 0 <= i < |ps| && ps[i].name == n && d in ps[i].deps)
  }

  method IndexDependents(ps: seq<Package>) returns (dependents: map<Name, seq<Name>>)
    ensures Indexed(ps, |ps|, 0, dependents)
  {
    dependents := map[];
    for j := 0 to |ps|
      invariant Indexed(ps, j, 0, dependents)
    {
      var pkg := ps[j];
      for k := 0 to |pkg.deps|
        invariant Indexed(ps, j, k, dependents)
      {
        var dep := pkg.deps[k];
        var list := if dep in dependents then dependents[dep] else [];
        dependents := dependents[dep := list + [pkg.name]];
      }
    }
  }

  /** `[...new Set(s)]`: first occurrences, in order. */
  function Once(s: seq<Name>): (r: seq<Name>)
    ensures forall n :: n in r <==> n in s
  {
    if s == [] then []
    else
      var front := s[..|s| - 1];
      assert s == front + [s[|s| - 1]];
      if s[|s| - 1] in front then Once(front) else Once(front) + [s[|s| - 1]]
  }

  /** The inner loop: the dependents of a name that are not included yet are included and queued. */
  method IncludeAll(parents: seq<Name>, before: set<Name>, waiting: seq<Name>)
    returns (inside: set<Name>, queue: seq<Name>)
    ensures inside == before + Elements(parents)
    ensures forall n :: n in queue <==> n in waiting || n in inside - before
    ensures inside == before ==> queue == waiting
  {
    inside, queue := before, waiting;
    for k := 0 to |parents|
      invariant inside == before + Elements(parents[..k])
      invariant forall n :: n in queue <==> n in waiting || n in inside - before
      invariant inside == before ==> queue == waiting
    {
      assert parents[..k + 1] == parents[..k] + [parents[k]];
      if parents[k] !in inside {
        inside := inside + {parents[k]};
        queue := queue + [parents[k]];
      }
    }
    assert parents[..|parents|] == parents;
  }

  /** A set that keeps everything the loop has included keeps the dependents of what it takes next. */
  lemma DependentsAreForced(ps: seq<Package>, dependents: map<Name, seq<Name>>, name: Name, s: set<Name>)
    requires Indexed(ps, |ps|, 0, dependents) && name in dependents && Closed(ps, s) && name in s
    ensures Elements(dependents[name]) <= s
  {
    forall n | n in dependents[name]
      ensures n in s
    {
      var i :| 0 <= i < |ps| && ps[i].name == n && name in ps[i].deps;
    }
  }

  /** What is included is forced by the selection, and lacks at most the dependents of queued names. */
  ghost predicate Expanding(selected: set<Name>, ps: seq<Package>, inside: set<Name>, queue: seq<Name>) {
    && selected <= inside <= selected + Names(ps)
    && (forall n :: n in queue ==> n in inside)
    && Pending(ps, inside, queue) && Forced(selected, ps, inside)
  }

  ghost predicate Pending(ps: seq<Package>, inside: set<Name>, queue: seq<Name>) {
    forall i, d :: 0 <= i < |ps| && d in ps[i].deps && d in inside && d !in queue ==> ps[i].name in inside
  }

  ghost predicate Forced(selected: set<Name>, ps: seq<Package>, inside: set<Name>) {
    forall s :: Closed(ps, s) && selected <= s ==> inside <= s
  }

  lemma ParentsDepend(ps: seq<Package>, dependents: map<Name, seq<Name>>, name: Name)
    requires Indexed(ps, |ps|, 0, dependents)
    ensures var parents := if name in dependents then dependents[name] else [];
      && Elements(parents) <= Names(ps)
      && forall i :: 0 <= i < |ps| && name in ps[i].deps ==> ps[i].name in parents
  {
  }

  lemma ExpandStep(selected: set<Name>, ps: seq<Package>, dependents: map<Name, seq<Name>>, was: set<Name>,
                   queue: seq<Name>, name: Name, inside: set<Name>, queue': seq<Name>)
    requires Indexed(ps, |ps|, 0, dependents) && Expanding(selected, ps, was, queue + [name])
    requires inside == was + Elements(if name in dependents then dependents[name] else [])
    requires forall n :: n in queue' <==> n in queue || n in inside - was
    ensures Expanding(selected, ps, inside, queue')
    ensures |selected + Names(ps) - inside| <= |selected + Names(ps) - was|
    ensures inside != was ==> |selected + Names(ps) - inside| < |selected + Names(ps) - was|
  {
    hide Indexed, Pending, Forced, Names;
    assert name in queue + [name];
    ParentsDepend(ps, dependents, name);
    StillPending(ps, dependents, was, queue, name, inside, queue');
    StillForced(selected, ps, dependents, was, name, inside);
    Shrinks(selected + Names(ps), was, inside);
  }

  lemma StillPending(ps: seq<Package>, dependents: map<Name, seq<Name>>, was: set<Name>, queue: seq<Name>, name: Name,
                     inside: set<Name>, queue': seq<Name>)
    requires Indexed(ps, |ps|, 0, dependents) && Pending(ps, was, queue + [name])
    requires inside == was + Elements(if name in dependents then dependents[name] else [])
    requires forall n :: n in queue' <==> n in queue || n in inside - was
    ensures Pending(ps, inside, queue')
  {
    hide Indexed;
    ParentsDepend(ps, dependents, name);
    forall i, d | 0 <= i < |ps| && d in ps[i].deps && d in inside && d !in queue'
      ensures ps[i].name in inside
    {
      if d != name { assert d !in queue + [name]; }
    }
  }

  lemma StillForced(selected: set<Name>, ps: seq<Package>, dependents: map<Name, seq<Name>>, was: set<Name>, name: Name,
                    inside: set<Name>)
    requires Indexed(ps, |ps|, 0, dependents) && Forced(selected, ps, was) && name in was
    requires inside == was + Elements(if name in dependents then dependents[name] else [])
    ensures Forced(selected, ps, inside)
  {
    hide Indexed, Closed;
    forall s | Closed(ps, s) && selected <= s
      ensures inside <= s
    {
      if name in dependents { DependentsAreForced(ps, dependents, name, s); }
    }
  }

  lemma Shrinks(all: set<Name>, was: set<Name>, now: set<Name>)
    requires was <= now <= all
    ensures |all - now| <= |all - was| && (now != was ==> |all - now| < |all - was|)
  {
    assert all - was == (all - now) + (now - was);
    if now != was { assert now - was != {}; }
  }

  /** `expandDependents`: in input order, the packages in the least set that contains the selection and is closed
      under "depends on a member". Cycles are no obstacle: a name is queued only when it is first included. */
  method ExpandDependents(selected: seq<Name>, ps: seq<Package>) returns (r: seq<Package>, ghost included: set<Name>)
    ensures forall p :: p in r <==> p in ps && forall s :: Closed(ps, s) && Elements(selected) <= s ==> p.name in s
    ensures r == Keep(ps, included) && exists at :: InPlaces(r, ps, at, included)
    ensures Elements(selected) <= included && Closed(ps, included)
    ensures forall s :: Closed(ps, s) && Elements(selected) <= s ==> included <= s
  {
    hide Keep, Indexed, Elements, Names;
    var dependents := IndexDependents(ps);
    var inside := Elements(selected);
    var queue := Once(selected);
    StartsExpanding(selected, ps);
    while queue != []
      invariant Expanding(Elements(selected), ps, inside, queue)
      decreases |Elements(selected) + Names(ps) - inside|, |queue|
    {
      var name := queue[|queue| - 1];
      var rest := queue[..|queue| - 1];
      assert queue == rest + [name];
      ghost var was := inside;
      inside, queue := IncludeAll(if name in dependents then dependents[name] else [], inside, rest);
      ExpandStep(Elements(selected), ps, dependents, was, rest, name, inside, queue);
    }
    included := inside;
    r := Keep(ps, inside);
    KeepIs(ps, inside);
    ghost var at := KeepInOrder(ps, inside);
  }

  lemma StartsExpanding(selected: seq<Name>, ps: seq<Package>)
    ensures Expanding(Elements(selected), ps, Elements(selected), Once(selected))
  {
  }
}
