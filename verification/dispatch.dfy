// What requests get from routers: consequences of the specification of routing.
module Dispatch {
  import opened Bytes
  import opened Paths
  import opened Routing

  // ----- The walk of a route that is itself a place -----

  // The prefixes of a route from length i on.
  function PrefixesFrom(route: Path, i: nat): seq<Path>
    requires i <= |route| + 1
  {
    seq(|route| + 1 - i, k requires 0 <= k < |route| + 1 - i => route[..i + k])
  }

  lemma WalkStep<R>(t: Trie<R>, p: Path, rest: Path)
    requires p in t
    ensures Walk(t, p, rest) ==
            if rest == [] || Next(t, p, rest[0]) == None then [p]
            else [p] + Walk(t, Next(t, p, rest[0]).value, rest[1..])
  {
  }

  // Literal edges come first: a route that is a place of the trie is walked to that
  // very place, through all its prefixes, wildcards or not.
  lemma {:induction false} WalkToPlace<R>(t: Trie<R>, route: Path, i: nat)
    requires IsTrie(t) && i <= |route| && route in t
    ensures route[..i] in t && Walk(t, route[..i], route[i..]) == PrefixesFrom(route, i)
    decreases |route| - i
  {
    PrefixIn(t, route, i);
    var v := PrefixesFrom(route, i);
    if i == |route| {
      assert v == [route[..i]];
    } else {
      WalkToPlace(t, route, i + 1);
      assert route[..i + 1] == route[..i] + [route[i]];
      assert route[i..][0] == route[i] && route[i..][1..] == route[i + 1..];
      assert v == [route[..i]] + PrefixesFrom(route, i + 1);
    }
  }

  lemma {:induction false} PrefixIn<R>(t: Trie<R>, p: Path, i: nat)
    requires IsTrie(t) && p in t && i <= |p|
    ensures p[..i] in t
    decreases |p|
  {
    if i == |p| {
      assert p[..i] == p;
    } else {
      assert HasParent(t, p);
      PrefixIn(t, Parent(p), i);
      assert Parent(p)[..i] == p[..i];
    }
  }

  lemma KnownTrie<R>(w: World<R>, rank: map<R, nat>, r: R)
    requires Known(w, rank, r)
    ensures r in w && r in rank && IsTrie(w[r]) && [] in w[r]
  {
  }

  // No mount on the way to path, up to length n, handles the request.
  ghost predicate NoneHandles<R>(w: World<R>, rank: map<R, nat>, r: R, path: Path, m: Method, n: nat)
    requires Known(w, rank, r) && path in w[r] && n <= |path| + 1
  {
    forall i :: 0 <= i < n ==>
      path[..i] in w[r] && Ask(w, rank, r, path[..i], path[i..], m).result != Handled
  }

  lemma ServeAtPlace<R>(w: World<R>, rank: map<R, nat>, r: R, path: Path, m: Method) returns (answers: seq<Outcome>)
    requires Known(w, rank, r) && path in w[r]
    ensures |answers| == |path| + 1
    ensures forall i :: 0 <= i <= |path| ==>
              path[..i] in w[r] && answers[i] == Ask(w, rank, r, path[..i], path[i..], m)
    ensures match FirstHandled(answers)
            case Some(i) => Serve(w, rank, r, path, m) == answers[i]
            case None => match Select(w[r][path].endpoints, m)
                         case Some(cb) => Serve(w, rank, r, path, m) == Ran(cb, path)
                         case None => true
  {
    hide Known, LastAnswer, DeepestCatchAll, Ask, FirstHandled, IsTrie, Walk, Answers;
    KnownTrie(w, rank, r);
    assert path[..0] == [] && path[0..] == path && path[..|path|] == path;
    WalkToPlace(w[r], path, 0);
    var v := Walk(w[r], [], path);
    answers := Answers(w, rank, r, v, path, m);
    assert forall i :: 0 <= i <= |path| ==> v[i] == path[..i];
  }

  // Among these endpoints, what is registered for k answers requests for m.
  predicate Covers(e: Endpoints, k: Method, m: Method) {
    k == m || (m !in e && (k == CatchAllHere || (k == CatchAllRecursive && CatchAllHere !in e)))
  }

  lemma CoveringIsSelected(e: Endpoints, k: Method, m: Method)
    requires k in e
    ensures Covers(e, k, m) ==> Select(e, m) == Some(e[k])
  {
  }

  // The first mount on the way that handles the request has the say.
  lemma {:induction false} FirstToHandle<R>(w: World<R>, rank: map<R, nat>, r: R, path: Path, m: Method,
                                            answers: seq<Outcome>, i: nat)
    requires Known(w, rank, r) && path in w[r] && i <= |path| && |answers| == |path| + 1
    requires forall k :: 0 <= k <= |path| ==>
               path[..k] in w[r] && answers[k] == Ask(w, rank, r, path[..k], path[k..], m)
    requires NoneHandles(w, rank, r, path, m, i)
    ensures answers[i].result == Handled ==> FirstHandled(answers) == Some(i)
    ensures i == |path| && answers[i].result != Handled ==> FirstHandled(answers) == None
  {
    hide Ask;
    assert forall k :: 0 <= k < i ==> answers[k].result != Handled;
  }

  // A request for the path of a registered callback, with a method that the callback
  // covers, gets the answer of the first mount on the path that handles it, and that
  // callback's otherwise, whatever wildcards, other endpoints and other mounts there
  // are. What is registered for CatchAllHere, as callbacks are by default, covers every
  // method that has no endpoint of its own there.
  lemma {:induction false} RegisteredRouteIsServed<R>(w: World<R>, rank: map<R, nat>, r: R, t: Trie<R>,
                                                      path: Path, k: Method, m: Method, cb: Callback)
    requires Known(w, rank, r) && w[r] == Apply(t, AddEndpoint(path, k, cb))
    ensures path in w[r] && forall i :: 0 <= i <= |path| ==> path[..i] in w[r]
    ensures Covers(w[r][path].endpoints, k, m) && NoneHandles(w, rank, r, path, m, |path| + 1) ==>
              Serve(w, rank, r, path, m) == Ran(cb, path)
    ensures forall i :: 0 <= i <= |path| && NoneHandles(w, rank, r, path, m, i) ==>
              var o := Ask(w, rank, r, path[..i], path[i..], m);
              o.result == Handled ==> Serve(w, rank, r, path, m) == o
  {
    hide Known, Ask, Serve, Apply, Grow, NoneHandles, FirstHandled, Covers, Select;
    EndpointAdded(w, rank, r, t, path, k, cb);
    CoveringIsSelected(w[r][path].endpoints, k, m);
    var answers := ServeAtPlace(w, rank, r, path, m);
    forall i | 0 <= i <= |path| && NoneHandles(w, rank, r, path, m, i) && answers[i].result == Handled
      ensures FirstHandled(answers) == Some(i)
    {
      FirstToHandle(w, rank, r, path, m, answers, i);
    }
    if NoneHandles(w, rank, r, path, m, |path| + 1) {
      NoneHandlesLess(w, rank, r, path, m);
      FirstToHandle(w, rank, r, path, m, answers, |path|);
    }
  }

  lemma EndpointAdded<R>(w: World<R>, rank: map<R, nat>, r: R, t: Trie<R>, path: Path, k: Method, cb: Callback)
    requires Known(w, rank, r) && w[r] == Apply(t, AddEndpoint(path, k, cb))
    ensures r in w && path in w[r] && k in w[r][path].endpoints && w[r][path].endpoints[k] == cb
  {
    Applied(t, AddEndpoint(path, k, cb));
  }

  lemma NoneHandlesLess<R>(w: World<R>, rank: map<R, nat>, r: R, path: Path, m: Method)
    requires Known(w, rank, r) && path in w[r] && NoneHandles(w, rank, r, path, m, |path| + 1)
    ensures NoneHandles(w, rank, r, path, m, |path|)
    ensures path[..|path|] in w[r] && Ask(w, rank, r, path[..|path|], path[|path|..], m).result != Handled
  {
  }

  // The two splitters agree: a callback added for a route text runs for every
  // document URI with the same components, if nothing is mounted on the way.
  lemma {:induction false} RegisteredUriIsServed<R>(w: World<R>, rank: map<R, nat>, r: R, t: Trie<R>,
                                                    route: Text, uri: Text, k: Method, m: Method, cb: Callback)
    requires Known(w, rank, r) && w[r] == Apply(t, AddEndpoint(Components(route), k, cb))
    requires Components(uri) == Components(route)
    requires forall i :: 0 <= i <= |Components(uri)| && Components(uri)[..i] in w[r] ==>
               w[r][Components(uri)[..i]].mount.Unmounted?
    ensures Components(uri) in w[r]
    ensures Covers(w[r][Components(uri)].endpoints, k, m) ==>
              Serve(w, rank, r, Components(uri), m) == Ran(cb, Components(uri))
  {
    hide Serve, Components, Apply, Covers;
    RegisteredRouteIsServed(w, rank, r, t, Components(uri), k, m, cb);
  }

  // A route that leads past a place goes through it.
  lemma {:induction false} WalkThrough<R>(t: Trie<R>, p: Path, q: Path, i: nat)
    requires IsTrie(t) && p in t && i <= |p|
    ensures p[..i] in t
    ensures var v := Walk(t, p[..i], p[i..] + q);
            |v| > |p| - i && forall k :: 0 <= k <= |p| - i ==> v[k] == p[..i + k]
    decreases |p| - i
  {
    hide IsTrie, Walk;
    PrefixIn(t, p, i);
    WalkStep(t, p[..i], p[i..] + q);
    if i < |p| {
      WalkThrough(t, p, q, i + 1);
      assert p[..i + 1] == p[..i] + [p[i]];
      assert (p[i..] + q)[0] == p[i] && (p[i..] + q)[1..] == p[i + 1..] + q;
    }
  }

  // A router mounted at p answers, for what comes after p, every request it handles,
  // unless a router mounted above p already does.
  lemma {:induction false} MountedRouterServes<R>(w: World<R>, rank: map<R, nat>, r: R, p: Path, q: Path, m: Method)
    requires Known(w, rank, r) && p in w[r] && w[r][p].mount.Nested?
    requires Ask(w, rank, r, p, q, m).result == Handled
    requires forall i :: 0 <= i < |p| ==>
               p[..i] in w[r] && Ask(w, rank, r, p[..i], p[i..] + q, m).result != Handled
    ensures Known(w, rank, w[r][p].mount.router)
    ensures Serve(w, rank, r, p + q, m) == Serve(w, rank, w[r][p].mount.router, q, m)
  {
    hide IsTrie, Walk, LastAnswer, DeepestCatchAll, Settle, FirstHandled, Ask, Answers;
    KnownTrie(w, rank, r);
    assert p[..0] == [] && p[0..] + q == p + q && p[..|p|] == p && (p + q)[|p|..] == q;
    WalkThrough(w[r], p, q, 0);
    var v := Walk(w[r], [], p + q);
    var answers := Answers(w, rank, r, v, p + q, m);
    assert answers[|p|] == Ask(w, rank, r, p, q, m);
    forall i | 0 <= i < |p| ensures answers[i].result != Handled {
      assert (p + q)[i..] == p[i..] + q;
      assert answers[i] == Ask(w, rank, r, p[..i], p[i..] + q, m);
    }
    FirstIs(answers, |p|);
    assert Ask(w, rank, r, p, q, m) == Serve(w, rank, w[r][p].mount.router, q, m) by {
      NestedAsk(w, rank, r, p, q, m);
    }
  }

  lemma FirstIs(answers: seq<Outcome>, i: nat)
    requires i < |answers| && answers[i].result == Handled
    requires forall k :: 0 <= k < i ==> answers[k].result != Handled
    ensures FirstHandled(answers) == Some(i)
  {
  }

  lemma NestedAsk<R>(w: World<R>, rank: map<R, nat>, r: R, p: Path, route: Path, m: Method)
    requires Known(w, rank, r) && p in w[r] && w[r][p].mount.Nested?
    ensures Known(w, rank, w[r][p].mount.router)
    ensures Ask(w, rank, r, p, route, m) == Serve(w, rank, w[r][p].mount.router, route, m)
  {
  }

  // ----- Routers without mounts and wildcards are flat maps -----

  ghost predicate Plain<R>(t: Trie<R>) {
    IsTrie(t) && forall p :: p in t ==> t[p].mount.Unmounted? && WILDCARD !in p
  }

  type Flat = map<Path, Endpoints>

  // What is registered, the empty nodes left out.
  function Flattened<R>(t: Trie<R>): Flat {
    map p | p in t && t[p].endpoints != map[] :: t[p].endpoints
  }

  // The recursive catch-all of the longest prefix shorter than n that has one.
  function FlatCatchAll(f: Flat, route: Path, n: nat): Option<Callback>
    requires n <= |route| + 1
  {
    if n == 0 then None
    else if route[..n - 1] in f && CatchAllRecursive in f[route[..n - 1]] then
      Some(f[route[..n - 1]][CatchAllRecursive])
    else FlatCatchAll(f, route, n - 1)
  }

  // Dispatch on a flat map: the exact path if anything is registered there, else
  // the longest proper prefix with a recursive catch-all.
  function FlatServe(f: Flat, route: Path, m: Method): Outcome {
    if route in f then
      match Select(f[route], m) case Some(cb) => Ran(cb, route) case None => Outcome(InvalidMethod, None)
    else
      match FlatCatchAll(f, route, |route|) case Some(cb) => Ran(cb, route) case None => NOT_FOUND
  }

  // Below a missing place there are no places.
  lemma {:induction false} NothingBelow<R>(t: Trie<R>, route: Path, i: nat, k: nat)
    requires IsTrie(t) && i <= k <= |route| && route[..i] !in t
    ensures route[..k] !in t
  {
    assert route[..k][..i] == route[..i];
    if route[..k] in t {
      PrefixIn(t, route[..k], i);
    }
  }

  // Without wildcards only literal edges are walked.
  lemma PlainNext<R>(t: Trie<R>, p: Path, c: Text)
    requires Plain(t)
    ensures Next(t, p, c) == if p + [c] in t then Some(p + [c]) else None
  {
    assert (p + [WILDCARD])[|p|] == WILDCARD;
  }

  // The walk goes through the prefixes of the route as far as there are nodes.
  lemma {:induction false} PlainWalk<R>(t: Trie<R>, route: Path, i: nat)
    requires Plain(t) && i <= |route| && route[..i] in t
    ensures var v := Walk(t, route[..i], route[i..]);
            && (forall k :: 0 <= k < |v| ==> v[k] == route[..i + k])
            && (forall k :: i + |v| <= k <= |route| ==> route[..k] !in t)
    decreases |route| - i
  {
    hide Plain, Next;
    if i < |route| {
      PlainNext(t, route[..i], route[i]);
      assert route[..i + 1] == route[..i] + [route[i]];
      assert route[i..][0] == route[i] && route[i..][1..] == route[i + 1..];
      if route[..i + 1] in t {
        PlainWalk(t, route, i + 1);
      } else {
        PlainIsTrie(t);
        forall k | i + 1 <= k <= |route| ensures route[..k] !in t {
          NothingBelow(t, route, i + 1, k);
        }
      }
    }
  }

  lemma PlainIsTrie<R>(t: Trie<R>)
    requires Plain(t)
    ensures IsTrie(t)
  {
  }

  lemma {:induction false} PlainCatchAll<R>(t: Trie<R>, route: Path, v: seq<Path>)
    requires |v| <= |route| + 1 && forall k :: 0 <= k < |v| ==> v[k] == route[..k] && v[k] in t
    ensures DeepestCatchAll(t, v) == FlatCatchAll(Flattened(t), route, |v|)
  {
    if v != [] {
      PlainCatchAll(t, route, v[..|v| - 1]);
    }
  }

  lemma {:induction false} NoCatchAllBeyond(f: Flat, route: Path, n: nat, k: nat)
    requires n <= k <= |route| + 1 && forall j :: n <= j < k ==> route[..j] !in f
    ensures FlatCatchAll(f, route, k) == FlatCatchAll(f, route, n)
  {
    if n < k {
      NoCatchAllBeyond(f, route, n, k - 1);
    }
  }

  lemma UnmountedAnswers<R>(w: World<R>, rank: map<R, nat>, r: R, v: seq<Path>, route: Path, m: Method)
    requires Known(w, rank, r) && 0 < |v| <= |route| + 1
    requires forall i :: 0 <= i < |v| ==> v[i] in w[r] && w[r][v[i]].mount.Unmounted?
    ensures var a := Answers(w, rank, r, v, route, m);
            Conclude(w[r], v, a, route, m) ==
            Settle(w[r][v[|v| - 1]].endpoints, |v| == |route| + 1, NotFound, DeepestCatchAll(w[r], v), route, m)
  {
    hide Settle, DeepestCatchAll;
    var a := Answers(w, rank, r, v, route, m);
    assert forall i :: 0 <= i < |a| ==> a[i] == NOT_FOUND;
  }

  // Without mounts and wildcards the walk amounts to dispatch on a flat map.
  lemma PlainIsFlat<R>(w: World<R>, rank: map<R, nat>, r: R, route: Path, m: Method)
    requires Known(w, rank, r) && Plain(w[r])
    ensures Serve(w, rank, r, route, m) == FlatServe(Flattened(w[r]), route, m)
  {
    hide Plain, FlatCatchAll, DeepestCatchAll, Answers, Conclude, Walk, Settle, FlatServe;
    PlainSteps(w[r], route);
    UnmountedAnswers(w, rank, r, Walk(w[r], [], route), route, m);
    PlainSettles(w[r], route, m);
  }

  lemma PlainSteps<R>(t: Trie<R>, route: Path)
    requires Plain(t)
    ensures [] in t
    ensures var v := Walk(t, [], route);
            && (forall k :: 0 <= k < |v| ==> v[k] == route[..k] && t[v[k]].mount.Unmounted?)
            && (forall k :: |v| <= k <= |route| ==> route[..k] !in t)
            && DeepestCatchAll(t, v) == FlatCatchAll(Flattened(t), route, |v|)
  {
    hide Walk, DeepestCatchAll, FlatCatchAll;
    assert route[..0] == [] && route[0..] == route;
    PlainWalk(t, route, 0);
    PlainCatchAll(t, route, Walk(t, [], route));
  }

  lemma PlainSettles<R>(t: Trie<R>, route: Path, m: Method)
    requires Plain(t)
    ensures [] in t
    ensures var v := Walk(t, [], route);
            Settle(t[v[|v| - 1]].endpoints, |v| == |route| + 1, NotFound, DeepestCatchAll(t, v), route, m)
            == FlatServe(Flattened(t), route, m)
  {
    hide Plain, Walk, DeepestCatchAll;
    PlainSteps(t, route);
    var v := Walk(t, [], route);
    var f := Flattened(t);
    assert route[..|route|] == route;
    if |v| <= |route| {
      NoCatchAllBeyond(f, route, |v|, |route|);
    }
  }

  // ----- Histories of a router -----

  // A router after a list of changes, from its creation on.
  function Build<R>(changes: seq<Change<R>>): Trie<R> {
    if changes == [] then map[[] := Bare()]
    else Apply(Build(changes[..|changes| - 1]), changes[|changes| - 1])
  }

  // The same changes to a flat map, where removing leaves nothing behind.
  function Register<R>(f: Flat, c: Change<R>): Flat {
    match c
    case AddMount(_, _) => f
    case AddEndpoint(path, m, callback) => f[path := (if path in f then f[path] else map[])[m := callback]]
    case RemoveAll(path) => f - {path}
  }

  function RegisterAll<R>(changes: seq<Change<R>>): Flat {
    if changes == [] then map[]
    else Register(RegisterAll(changes[..|changes| - 1]), changes[|changes| - 1])
  }

  predicate PlainChange<R>(c: Change<R>) {
    WILDCARD !in c.path && (c.AddMount? ==> c.mount.Unmounted?)
  }

  lemma {:induction false} GrowTrie<R>(t: Trie<R>, path: Path)
    requires IsTrie(t)
    ensures IsTrie(Grow(t, path))
  {
    var g := Grow(t, path);
    forall p | p in g ensures HasParent(g, p) {
      if p in t {
        assert HasParent(t, p);
      } else {
        var i :| 0 <= i <= |path| && p == path[..i];
        assert p != [] ==> Parent(p) == path[..i - 1];
      }
    }
  }

  lemma {:induction false} GrowPlain<R>(t: Trie<R>, path: Path)
    requires Plain(t) && WILDCARD !in path
    ensures Plain(Grow(t, path)) && Flattened(Grow(t, path)) == Flattened(t)
  {
    hide IsTrie;
    GrowTrie(t, path);
    forall p | p in Grow(t, path) ensures WILDCARD !in p {
      if p !in t {
        var i :| 0 <= i <= |path| && p == path[..i];
      }
    }
  }

  lemma FlattenedUpdate<R>(t: Trie<R>, p: Path, n: Node<R>)
    ensures Flattened(t[p := n]) ==
            if n.endpoints == map[] then Flattened(t) - {p} else Flattened(t)[p := n.endpoints]
  {
  }

  lemma PlainUpdate<R>(t: Trie<R>, p: Path, n: Node<R>)
    requires Plain(t) && p in t && n.mount.Unmounted?
    ensures Plain(t[p := n])
  {
    forall k | k in t ensures HasParent(t[p := n], k) {
      assert HasParent(t, k);
    }
  }

  lemma ApplyPlain<R>(t: Trie<R>, c: Change<R>)
    requires Plain(t) && PlainChange(c)
    ensures Plain(Apply(t, c)) && Flattened(Apply(t, c)) == Register(Flattened(t), c)
  {
    hide Apply, Grow, Flattened, IsTrie;
    GrowPlain(t, c.path);
    Applied(t, c);
    var g := Grow(t, c.path);
    var n := Apply(t, c)[c.path];
    PlainUpdate(g, c.path, n);
    FlattenedUpdate(g, c.path, n);
    FlattenedUpdate(g, c.path, g[c.path]);
    assert g[c.path := g[c.path]] == g;
    if c.AddEndpoint? {
      assert c.m in n.endpoints;
      FlattenedAt(g, c.path);
    }
  }

  lemma FlattenedAt<R>(t: Trie<R>, p: Path)
    requires p in t
    ensures t[p].endpoints == if p in Flattened(t) then Flattened(t)[p] else map[]
  {
  }

  lemma {:induction false} BuildPlain<R>(changes: seq<Change<R>>)
    requires forall c :: c in changes ==> PlainChange(c)
    ensures Plain(Build(changes)) && Flattened(Build(changes)) == RegisterAll(changes)
  {
    if changes != [] {
      BuildPlain(changes[..|changes| - 1]);
      ApplyPlain(Build(changes[..|changes| - 1]), changes[|changes| - 1]);
    }
  }

  // After any history without mounts and wildcards a router answers as the flat map
  // of what is registered; the empty nodes left over never change an answer.
  lemma FlatDispatch<R>(w: World<R>, rank: map<R, nat>, r: R, changes: seq<Change<R>>, route: Path, m: Method)
    requires Known(w, rank, r) && w[r] == Build(changes)
    requires forall c :: c in changes ==> PlainChange(c)
    ensures Serve(w, rank, r, route, m) == FlatServe(RegisterAll(changes), route, m)
  {
    hide Serve, FlatServe, Build, RegisterAll;
    BuildPlain(changes);
    PlainIsFlat(w, rank, r, route, m);
  }

  // The answer depends on the routers alone, not on how their nesting is ranked.
  lemma {:induction false} RanksAgree<R>(w: World<R>, rank: map<R, nat>, rank': map<R, nat>, r: R,
                                         route: Path, m: Method)
    requires Known(w, rank, r) && Known(w, rank', r)
    ensures Serve(w, rank, r, route, m) == Serve(w, rank', r, route, m)
    decreases rank[r]
  {
    hide Walk, Conclude;
    var v := Walk(w[r], [], route);
    var a, a' := Answers(w, rank, r, v, route, m), Answers(w, rank', r, v, route, m);
    forall i | 0 <= i < |v| ensures a[i] == a'[i] {
      AsksAgree(w, rank, rank', r, v[i], route[i..], m);
    }
    assert a == a';
  }

  lemma {:induction false} AsksAgree<R>(w: World<R>, rank: map<R, nat>, rank': map<R, nat>, r: R, p: Path,
                                        route: Path, m: Method)
    requires Known(w, rank, r) && Known(w, rank', r) && p in w[r]
    ensures Ask(w, rank, r, p, route, m) == Ask(w, rank', r, p, route, m)
    decreases rank[r], 0
  {
    hide Serve, IsTrie;
    match w[r][p].mount
    case Nested(s) => RanksAgree(w, rank, rank', s, route, m);
    case _ =>
  }

  // ----- The loop as a recursion -----

  // What is answered from node p on, with rest still to go: answer is that of the mounts
  // passed, and catchAll the recursive catch-all in force at p.
  ghost function Go<R>(w: World<R>, rank: map<R, nat>, r: R, p: Path, rest: Path,
                       answer: RouteResult, catchAll: Option<Callback>, route: Path, m: Method): Outcome
    requires Known(w, rank, r) && p in w[r] && answer != Handled
    decreases |rest|
  {
    var o := Ask(w, rank, r, p, rest, m);
    var newer := Newer(o.result, answer);
    if o.result == Handled then o
    else if rest == [] then Settle(w[r][p].endpoints, true, newer, catchAll, route, m)
    else match Next(w[r], p, rest[0])
      case None => Settle(map[], false, newer, catchAll, route, m)
      case Some(q) => Go(w, rank, r, q, rest[1..], newer, CatchAllAt(w[r][q], catchAll), route, m)
  }

  lemma {:induction false} ReachedGoes<R>(w: World<R>, rank: map<R, nat>, r: R, route: Path, m: Method,
                                          i: nat, p: Path, answer: RouteResult, catchAll: Option<Callback>)
    requires Known(w, rank, r) && Reached(w, rank, r, route, m, i, p, answer, catchAll)
    requires i <= |route| && p in w[r] && answer != Handled
    ensures Go(w, rank, r, p, route[i..], answer, catchAll, route, m) == Serve(w, rank, r, route, m)
    decreases |route| - i
  {
    hide Known, IsTrie, Fair, Reached, Serve, Ask, Newer, Next, Settle, CatchAllAt;
    KnownTrie(w, rank, r);
    ReachedStep(w, rank, r, route, m, i, p, answer, catchAll);
    var o := Ask(w, rank, r, p, route[i..], m);
    if o.result != Handled && i < |route| {
      assert route[i..][0] == route[i] && route[i..][1..] == route[i + 1..];
      if Next(w[r], p, route[i]).Some? {
        var q := Next(w[r], p, route[i]).value;
        ReachedGoes(w, rank, r, route, m, i + 1, q, Newer(o.result, answer), CatchAllAt(w[r][q], catchAll));
      }
    }
  }

  // Walking with the loop's variables, one node at a time, gives the answer that puts
  // together the whole walk.
  lemma {:induction false} ServeIsGo<R>(w: World<R>, rank: map<R, nat>, r: R, route: Path, m: Method)
    requires Known(w, rank, r)
    ensures [] in w[r]
    ensures Go(w, rank, r, [], route, NotFound, CatchAllAt(w[r][[]], None), route, m) == Serve(w, rank, r, route, m)
  {
    hide Reached, Serve, Go;
    ReachedStart(w, rank, r, route, m);
    assert route[0..] == route;
    ReachedGoes(w, rank, r, route, m, 0, [], NotFound, CatchAllAt(w[r][[]], None));
  }

  // ----- What a callback sees -----

  // How many components each mount that is active when something runs has consumed,
  // outermost first.
  ghost function Active<R>(w: World<R>, rank: map<R, nat>, r: R, route: Path, m: Method): seq<nat>
    requires Known(w, rank, r)
    decreases rank[r]
  {
    var v := Walk(w[r], [], route);
    match FirstHandled(Answers(w, rank, r, v, route, m))
    case None => []
    case Some(k) =>
      match w[r][v[k]].mount
      case Nested(s) => [k] + Active(w, rank, s, route[k..], m)
      case _ => [k]
  }

  function Sum(ks: seq<nat>): nat {
    if ks == [] then 0 else ks[0] + Sum(ks[1..])
  }

  predicate Selectable(e: Endpoints, m: Method, h: Handler) {
    exists method_ :: method_ in [m, CatchAllHere, CatchAllRecursive] && method_ in e && h == Callback(e[method_])
  }

  // The chain of mounts ks, each on the walk of the router before it, leads from r to
  // where s ran: a callback registered in the last router on its walk, for the
  // method or for one of the catch-alls, or a router of another kind.
  ghost predicate ServedBy<R>(w: World<R>, r: R, route: Path, m: Method, ks: seq<nat>, s: Served) {
    r in w && [] in w[r] &&
    var v := Walk(w[r], [], route);
    if ks == [] then
      s.seen == route && exists i: nat :: i < |v| && Selectable(w[r][v[i]].endpoints, m, s.handler)
    else
      ks[0] < |v| &&
      match w[r][v[ks[0]]].mount
      case Unmounted => false
      case Nested(r') => ServedBy(w, r', route[ks[0]..], m, ks[1..], s)
      case Foreign(id, answer) =>
        |ks| == 1 && answer(route[ks[0]..], m) == Handled && s == Served(ForeignRouter(id), route[ks[0]..])
  }

  // Either a mount on the walk has handled the request, or this router has decided.
  lemma {:induction false} ActiveStep<R>(w: World<R>, rank: map<R, nat>, r: R, route: Path, m: Method)
    returns (v: seq<Path>, first: Option<nat>)
    requires Known(w, rank, r)
    ensures v == Walk(w[r], [], route) && forall i :: 0 <= i < |v| ==> v[i] in w[r]
    ensures match first
            case None =>
              && Active(w, rank, r, route, m) == []
              && var o := Serve(w, rank, r, route, m);
                 o.served.Some? ==> o.served.value.seen == route && ServedBy(w, r, route, m, [], o.served.value)
            case Some(k) =>
              && k < |v| && Serve(w, rank, r, route, m) == Ask(w, rank, r, v[k], route[k..], m)
              && Active(w, rank, r, route, m) ==
                 match w[r][v[k]].mount
                 case Nested(s) => [k] + Active(w, rank, s, route[k..], m)
                 case _ => [k]
  {
    hide Selectable, LastAnswer, DeepestCatchAll, Settle, Walk, Ask;
    v := Walk(w[r], [], route);
    var answers := Answers(w, rank, r, v, route, m);
    first := FirstHandled(answers);
    if first == None {
      LocallySelected(w[r], v, answers, route, m);
    }
  }

  lemma {:induction false} ServedThroughMount<R>(w: World<R>, r: R, route: Path, m: Method,
                                                 k: nat, ks: seq<nat>, s: Served)
    requires r in w && [] in w[r] && k < |Walk(w[r], [], route)|
    requires w[r][Walk(w[r], [], route)[k]].mount.Nested?
    requires ServedBy(w, w[r][Walk(w[r], [], route)[k]].mount.router, route[k..], m, ks, s)
    ensures ServedBy(w, r, route, m, [k] + ks, s) && Sum([k] + ks) == k + Sum(ks)
  {
    assert ([k] + ks)[1..] == ks;
  }

  lemma ServedByForeign<R>(w: World<R>, r: R, route: Path, m: Method, k: nat)
    requires r in w && [] in w[r] && k < |Walk(w[r], [], route)|
    requires w[r][Walk(w[r], [], route)[k]].mount.Foreign?
    ensures var f := w[r][Walk(w[r], [], route)[k]].mount;
            f.answer(route[k..], m) == Handled ==>
              ServedBy(w, r, route, m, [k], Served(ForeignRouter(f.id), route[k..]))
    ensures Sum([k]) == k
  {
    assert Sum([k]) == k + Sum([]);
  }

  // A callback sees the full route minus exactly the components consumed by the
  // mounts still active, and it is one that those mounts lead to.
  lemma {:induction false} SeenIsTheRest<R>(w: World<R>, rank: map<R, nat>, r: R, route: Path, m: Method)
    requires Known(w, rank, r)
    ensures var o := Serve(w, rank, r, route, m);
            var ks := Active(w, rank, r, route, m);
            o.served.Some? ==>
              && ServedBy(w, r, route, m, ks, o.served.value)
              && Sum(ks) <= |route| && o.served.value.seen == route[Sum(ks)..]
    decreases rank[r]
  {
    hide Serve, Active, Selectable, Walk, IsTrie, ServedBy;
    var v, first := ActiveStep(w, rank, r, route, m);
    if first.Some? {
      var k := first.value;
      match w[r][v[k]].mount {
        case Nested(s) =>
          SeenIsTheRest(w, rank, s, route[k..], m);
          var o := Serve(w, rank, s, route[k..], m);
          if o.served.Some? {
            ServedThroughMount(w, r, route, m, k, Active(w, rank, s, route[k..], m), o.served.value);
          }
        case Foreign(id, answer) =>
          ServedByForeign(w, r, route, m, k);
        case Unmounted =>
      }
    }
  }

  // v[i] has this recursive catch-all, and no node after it has any.
  ghost predicate LastCatchAll<R>(t: Trie<R>, v: seq<Path>, i: nat, cb: Callback)
    requires forall i :: 0 <= i < |v| ==> v[i] in t
  {
    && i < |v| && CatchAllRecursive in t[v[i]].endpoints && t[v[i]].endpoints[CatchAllRecursive] == cb
    && forall j :: i < j < |v| ==> CatchAllRecursive !in t[v[j]].endpoints
  }

  // It is the deepest one.
  lemma {:induction false} DeepestIsThere<R>(t: Trie<R>, v: seq<Path>)
    requires forall i :: 0 <= i < |v| ==> v[i] in t
    ensures DeepestCatchAll(t, v).Some? ==> exists i: nat :: LastCatchAll(t, v, i, DeepestCatchAll(t, v).value)
  {
    if v != [] && DeepestCatchAll(t, v).Some? {
      var n, cb := |v| - 1, DeepestCatchAll(t, v).value;
      if CatchAllRecursive in t[v[n]].endpoints {
        assert LastCatchAll(t, v, n, cb);
      } else {
        DeepestIsThere(t, v[..n]);
        var i: nat :| LastCatchAll(t, v[..n], i, cb);
        assert forall j :: i < j < n ==> v[..n][j] == v[j];
        assert LastCatchAll(t, v, i, cb);
      }
    }
  }

  lemma {:induction false} LocallySelected<R>(t: Trie<R>, v: seq<Path>, answers: seq<Outcome>, route: Path, m: Method)
    requires v != [] && forall i :: 0 <= i < |v| ==> v[i] in t
    requires forall i :: 0 <= i < |answers| ==> Fair(answers[i])
    requires FirstHandled(answers) == None
    ensures var o := Conclude(t, v, answers, route, m);
            o.served.Some? ==>
              && o.served.value.seen == route
              && exists i: nat :: i < |v| && Selectable(t[v[i]].endpoints, m, o.served.value.handler)
  {
    hide DeepestCatchAll, LastAnswer, FirstHandled, Selectable, LastCatchAll;
    DeepestIsThere(t, v);
    var o := Conclude(t, v, answers, route, m);
    if o.served.Some? {
      SelectIsSelectable(t[v[|v| - 1]].endpoints, m);
      if DeepestCatchAll(t, v).Some? {
        var i: nat :| LastCatchAll(t, v, i, DeepestCatchAll(t, v).value);
        DeepestIsSelectable(t, v, i, DeepestCatchAll(t, v).value, m);
      }
    }
  }

  lemma SelectIsSelectable(e: Endpoints, m: Method)
    ensures Select(e, m).Some? ==> Selectable(e, m, Callback(Select(e, m).value))
  {
  }

  lemma DeepestIsSelectable<R>(t: Trie<R>, v: seq<Path>, i: nat, cb: Callback, m: Method)
    requires (forall i :: 0 <= i < |v| ==> v[i] in t) && LastCatchAll(t, v, i, cb)
    ensures i < |v| && Selectable(t[v[i]].endpoints, m, Callback(cb))
  {
  }
}
