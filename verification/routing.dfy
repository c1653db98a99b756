// What a tree of routers answers: a specification of Router::handle_request in
// src/lib/router.cpp over string-keyed tries.
module Routing {
  import opened Bytes

  // A route, as a list of components; also the place of a node in a trie.
  type Path = seq<Text>

  const WILDCARD: Text := [0x2a]

  datatype Method =
    | GET | HEAD | POST | PUT | DELETE | CONNECT | OPTIONS | TRACE | PATCH
    | Unknown | Other | CatchAllHere | CatchAllRecursive

  datatype RouteResult = Handled | NotFound | InvalidMethod | InternalError

  type Callback = nat
  type Endpoints = map<Method, Callback>

  // The router mounted on a node: none, one of the routers of the world, or an
  // IRouter of another kind, of which it is known what it answers to what is left of
  // a route, and to a method.
  datatype Mount<+R> = Unmounted | Nested(router: R) | Foreign(id: nat, answer: (Path, Method) -> RouteResult)

  datatype Node<+R> = Node(mount: Mount<R>, endpoints: Endpoints)

  function Bare<R>(): Node<R> {
    Node(Unmounted, map[])
  }

  type Trie<R> = map<Path, Node<R>>

  // Routers refer to each other, so that one may be mounted in several places.
  type World<R> = map<R, Trie<R>>

  function Parent(p: Path): Path
    requires p != []
  {
    p[..|p| - 1]
  }

  // Every node but the root has a parent.
  ghost predicate IsTrie<R>(t: Trie<R>) {
    [] in t && forall p {:trigger HasParent(t, p)} :: p in t ==> HasParent(t, p)
  }

  ghost predicate HasParent<R>(t: Trie<R>, p: Path) {
    p != [] ==> Parent(p) in t
  }

  // Mounting has no cycles: rank decreases from a router to those mounted in it.
  ghost predicate Acyclic<R>(w: World<R>, rank: map<R, nat>) {
    forall r :: r in w ==>
      && r in rank && IsTrie(w[r])
      && forall p :: p in w[r] && w[r][p].mount.Nested? ==>
           var s := w[r][p].mount.router;
           s in w && s in rank && rank[s] < rank[r]
  }

  ghost predicate Known<R>(w: World<R>, rank: map<R, nat>, r: R) {
    Acyclic(w, rank) && r in w
  }

  // ----- The walk -----

  // The node a component leads to: the literal edge, else the wildcard edge.
  function Next<R>(t: Trie<R>, p: Path, c: Text): Option<Path> {
    if p + [c] in t then Some(p + [c])
    else if p + [WILDCARD] in t then Some(p + [WILDCARD])
    else None
  }

  // The nodes visited from p on, p included.
  function Walk<R>(t: Trie<R>, p: Path, route: Path): (v: seq<Path>)
    requires p in t
    ensures 1 <= |v| <= |route| + 1 && v[0] == p
    ensures forall i :: 0 <= i < |v| ==> v[i] in t
    ensures forall i :: 0 <= i < |v| - 1 ==> Next(t, v[i], route[i]) == Some(v[i + 1])
    ensures |v| <= |route| ==> Next(t, v[|v| - 1], route[|v| - 1]) == None
    decreases |route|
  {
    if route == [] then [p]
    else match Next(t, p, route[0])
      case None => [p]
      case Some(q) => [p] + Walk(t, q, route[1..])
  }

  // ----- The answer -----

  datatype Handler = Callback(callback: Callback) | ForeignRouter(id: nat)

  // What ran, and the relative route it saw.
  datatype Served = Served(handler: Handler, seen: Path)

  datatype Outcome = Outcome(result: RouteResult, served: Option<Served>)

  const NOT_FOUND := Outcome(NotFound, None)

  // Something ran just when the request was handled.
  ghost predicate Fair(o: Outcome) {
    o.result == Handled <==> o.served.Some?
  }

  // The callback of a node for a method.
  function Select(e: Endpoints, m: Method): Option<Callback> {
    if m in e then Some(e[m])
    else if CatchAllHere in e then Some(e[CatchAllHere])
    else if CatchAllRecursive in e then Some(e[CatchAllRecursive])
    else None
  }

  // The index of the first answer that is Handled.
  function FirstHandled(answers: seq<Outcome>): (i: Option<nat>)
    ensures i.None? ==> forall k :: 0 <= k < |answers| ==> answers[k].result != Handled
    ensures i.Some? ==> i.value < |answers| && answers[i.value].result == Handled
    ensures i.Some? ==> forall k :: 0 <= k < i.value ==> answers[k].result != Handled
  {
    if answers == [] then None
    else if answers[0].result == Handled then Some(0)
    else match FirstHandled(answers[1..]) case None => None case Some(i) => Some(i + 1)
  }

  // The last answer that is not NotFound.
  function LastAnswer(answers: seq<Outcome>): (r: RouteResult)
    ensures r == NotFound <==> forall k :: 0 <= k < |answers| ==> answers[k].result == NotFound
    ensures r != NotFound ==> exists k :: 0 <= k < |answers| && answers[k].result == r
                                          && forall j :: k < j < |answers| ==> answers[j].result == NotFound
  {
    if answers == [] then NotFound
    else if answers[|answers| - 1].result != NotFound then answers[|answers| - 1].result
    else LastAnswer(answers[..|answers| - 1])
  }

  // The deepest of the nodes visited that has a recursive catch-all.
  function DeepestCatchAll<R>(t: Trie<R>, v: seq<Path>): (cb: Option<Callback>)
    requires forall i :: 0 <= i < |v| ==> v[i] in t
    ensures cb.None? <==> forall i :: 0 <= i < |v| ==> CatchAllRecursive !in t[v[i]].endpoints
  {
    if v == [] then None
    else
      var e := t[v[|v| - 1]].endpoints;
      if CatchAllRecursive in e then Some(e[CatchAllRecursive])
      else DeepestCatchAll(t, v[..|v| - 1])
  }

  // One more answer, one more node.
  lemma LastAnswerExtend(answers: seq<Outcome>, i: nat)
    requires i < |answers|
    ensures LastAnswer(answers[..i + 1]) ==
            if answers[i].result != NotFound then answers[i].result else LastAnswer(answers[..i])
  {
    assert answers[..i + 1][..i] == answers[..i];
  }

  lemma DeepestExtend<R>(t: Trie<R>, v: seq<Path>, i: nat)
    requires i < |v| && forall k :: 0 <= k < |v| ==> v[k] in t
    ensures DeepestCatchAll(t, v[..i + 1]) ==
            if CatchAllRecursive in t[v[i]].endpoints then Some(t[v[i]].endpoints[CatchAllRecursive])
            else DeepestCatchAll(t, v[..i])
  {
    assert v[..i + 1][..i] == v[..i];
  }

  function Ran(cb: Callback, route: Path): Outcome {
    Outcome(Handled, Some(Served(Callback(cb), route)))
  }

  // The answer when no mount handled the request: the last node has its say if the
  // walk is complete and the node has endpoints; otherwise the deepest recursive
  // catch-all does, unless a mount said more than NotFound and the walk stopped
  // short.
  function Settle(e: Endpoints, complete: bool, answer: RouteResult, catchAll: Option<Callback>,
                  route: Path, m: Method): (o: Outcome)
    requires answer != Handled
    ensures Fair(o)
  {
    if complete && e != map[] then
      match Select(e, m) case Some(cb) => Ran(cb, route) case None => Outcome(InvalidMethod, None)
    else
      var result := if complete then NotFound else answer;
      if result == NotFound && catchAll.Some? then Ran(catchAll.value, route) else Outcome(result, None)
  }

  // Puts together the answers of the routers mounted on the walk and the
  // endpoints of the walk's nodes.
  function Conclude<R>(t: Trie<R>, v: seq<Path>, answers: seq<Outcome>, route: Path, m: Method): (o: Outcome)
    requires v != [] && forall i :: 0 <= i < |v| ==> v[i] in t
    requires forall i :: 0 <= i < |answers| ==> Fair(answers[i])
    ensures Fair(o)
  {
    match FirstHandled(answers)
    case Some(i) => answers[i]
    case None =>
      Settle(t[v[|v| - 1]].endpoints, |v| == |route| + 1, LastAnswer(answers), DeepestCatchAll(t, v), route, m)
  }

  // Where the walk stands after the first i + 1 nodes, with the answers of the
  // mounts on the first i of them: none handled the request.
  ghost predicate Walked<R>(t: Trie<R>, v: seq<Path>, answers: seq<Outcome>, i: nat,
                            result: RouteResult, catchAll: Option<Callback>)
  {
    && i < |v| == |answers| && (forall k :: 0 <= k < |v| ==> v[k] in t)
    && (forall k :: 0 <= k < i ==> answers[k].result != Handled)
    && result == LastAnswer(answers[..i])
    && catchAll == DeepestCatchAll(t, v[..i + 1])
  }

  lemma WalkStarts<R>(t: Trie<R>, v: seq<Path>, answers: seq<Outcome>)
    requires 0 < |v| == |answers| && (forall k :: 0 <= k < |v| ==> v[k] in t)
    ensures var e := t[v[0]].endpoints;
            Walked(t, v, answers, 0, NotFound,
                   if CatchAllRecursive in e then Some(e[CatchAllRecursive]) else None)
  {
    DeepestExtend(t, v, 0);
  }

  // To the next node, past an answer that did not handle the request.
  lemma WalkGoesOn<R>(t: Trie<R>, v: seq<Path>, answers: seq<Outcome>, i: nat,
                      result: RouteResult, catchAll: Option<Callback>)
    requires Walked(t, v, answers, i, result, catchAll) && answers[i].result != Handled && i + 1 < |v|
    ensures var e := t[v[i + 1]].endpoints;
            Walked(t, v, answers, i + 1, if answers[i].result != NotFound then answers[i].result else result,
                   if CatchAllRecursive in e then Some(e[CatchAllRecursive]) else catchAll)
  {
    LastAnswerExtend(answers, i);
    DeepestExtend(t, v, i + 1);
  }

  // A mount handled the request: its answer is the router's.
  lemma WalkHandled<R>(t: Trie<R>, v: seq<Path>, answers: seq<Outcome>, i: nat,
                       result: RouteResult, catchAll: Option<Callback>, route: Path, m: Method)
    requires Walked(t, v, answers, i, result, catchAll) && answers[i].result == Handled
    requires forall k :: 0 <= k < |answers| ==> Fair(answers[k])
    ensures Conclude(t, v, answers, route, m) == answers[i]
  {
  }

  // No mount handled it: what is left of Conclude.
  lemma WalkEnds<R>(t: Trie<R>, v: seq<Path>, answers: seq<Outcome>, i: nat,
                    result: RouteResult, catchAll: Option<Callback>, route: Path, m: Method)
    requires Walked(t, v, answers, i, result, catchAll) && i + 1 == |v| && answers[i].result != Handled
    requires forall k :: 0 <= k < |answers| ==> Fair(answers[k])
    ensures Conclude(t, v, answers, route, m) ==
            Settle(t[v[i]].endpoints, |v| == |route| + 1,
                   if answers[i].result != NotFound then answers[i].result else result, catchAll, route, m)
  {
    LastAnswerExtend(answers, i);
    assert answers[..i + 1] == answers && v[..i + 1] == v;
  }

  // The answer of router r for route and method m.
  ghost function Serve<R>(w: World<R>, rank: map<R, nat>, r: R, route: Path, m: Method): (o: Outcome)
    requires Known(w, rank, r)
    ensures Fair(o)
    decreases rank[r], 2, 0
  {
    var v := Walk(w[r], [], route);
    Conclude(w[r], v, Answers(w, rank, r, v, route, m), route, m)
  }

  // The answer of what is mounted on node p.
  ghost function Ask<R>(w: World<R>, rank: map<R, nat>, r: R, p: Path, route: Path, m: Method): (o: Outcome)
    requires Known(w, rank, r) && p in w[r]
    ensures Fair(o)
    decreases rank[r], 0, 0
  {
    match w[r][p].mount
    case Unmounted => NOT_FOUND
    case Nested(s) => Serve(w, rank, s, route, m)
    case Foreign(id, answer) =>
      var result := answer(route, m);
      Outcome(result, if result == Handled then Some(Served(ForeignRouter(id), route)) else None)
  }

  // The answers of all mounts on the walk: the one on the i-th node is asked for
  // what is left of the route after i components.
  ghost function Answers<R>(w: World<R>, rank: map<R, nat>, r: R, v: seq<Path>, route: Path, m: Method)
    : (a: seq<Outcome>)
    requires Known(w, rank, r) && |v| <= |route| + 1
    requires forall i :: 0 <= i < |v| ==> v[i] in w[r]
    ensures |a| == |v|
    ensures forall i :: 0 <= i < |a| ==> a[i] == Ask(w, rank, r, v[i], route[i..], m) && Fair(a[i])
    decreases rank[r], 1, |v|
  {
    if v == [] then []
    else
      var n := |v| - 1;
      Answers(w, rank, r, v[..n], route, m) + [Ask(w, rank, r, v[n], route[n..], m)]
  }

  // ----- The walk, step by step -----

  // After i components the walk of r is at node p, no mount so far having handled
  // the request: the answer so far, and the deepest recursive catch-all so far.
  ghost predicate Reached<R>(w: World<R>, rank: map<R, nat>, r: R, route: Path, m: Method,
                             i: nat, p: Path, result: RouteResult, catchAll: Option<Callback>)
    requires Known(w, rank, r)
  {
    var v := Walk(w[r], [], route);
    Walked(w[r], v, Answers(w, rank, r, v, route, m), i, result, catchAll) && v[i] == p
  }

  function CatchAllAt<R>(n: Node<R>, otherwise: Option<Callback>): Option<Callback> {
    if CatchAllRecursive in n.endpoints then Some(n.endpoints[CatchAllRecursive]) else otherwise
  }

  function Newer(newResult: RouteResult, result: RouteResult): (r: RouteResult)
    ensures result != Handled ==> (r == Handled <==> newResult == Handled)
  {
    if newResult != NotFound then newResult else result
  }

  lemma ReachedStart<R>(w: World<R>, rank: map<R, nat>, r: R, route: Path, m: Method)
    requires Known(w, rank, r)
    ensures Reached(w, rank, r, route, m, 0, [], NotFound, CatchAllAt(w[r][[]], None))
  {
    hide Walk;
    var v := Walk(w[r], [], route);
    WalkStarts(w[r], v, Answers(w, rank, r, v, route, m));
  }

  // A mount handles the request: its answer is the router's.
  lemma ReachedHandled<R>(w: World<R>, rank: map<R, nat>, r: R, route: Path, m: Method,
                          i: nat, p: Path, result: RouteResult, catchAll: Option<Callback>)
    requires Known(w, rank, r) && Reached(w, rank, r, route, m, i, p, result, catchAll)
    ensures i <= |route| && p in w[r] && result != Handled
    ensures var o := Ask(w, rank, r, p, route[i..], m); o.result == Handled ==> Serve(w, rank, r, route, m) == o
  {
    hide Walk, Conclude;
    var v := Walk(w[r], [], route);
    var answers := Answers(w, rank, r, v, route, m);
    if answers[i].result == Handled {
      WalkHandled(w[r], v, answers, i, result, catchAll, route, m);
    }
  }

  // None does, and there is a node to go on to.
  lemma ReachedNext<R>(w: World<R>, rank: map<R, nat>, r: R, route: Path, m: Method,
                       i: nat, p: Path, result: RouteResult, catchAll: Option<Callback>, q: Path)
    requires Known(w, rank, r) && Reached(w, rank, r, route, m, i, p, result, catchAll)
    requires i < |route| && p in w[r] && Next(w[r], p, route[i]) == Some(q)
    requires Ask(w, rank, r, p, route[i..], m).result != Handled
    ensures q in w[r]
    ensures var o := Ask(w, rank, r, p, route[i..], m);
            Reached(w, rank, r, route, m, i + 1, q, Newer(o.result, result), CatchAllAt(w[r][q], catchAll))
  {
    var v := Walk(w[r], [], route);
    WalkGoesOn(w[r], v, Answers(w, rank, r, v, route, m), i, result, catchAll);
  }

  lemma WalkContinues<R>(t: Trie<R>, route: Path, i: nat)
    requires [] in t && i + 1 < |Walk(t, [], route)|
    ensures Next(t, Walk(t, [], route)[i], route[i]) == Some(Walk(t, [], route)[i + 1])
  {
  }

  // None does, and the walk ends here.
  lemma ReachedEnd<R>(w: World<R>, rank: map<R, nat>, r: R, route: Path, m: Method,
                      i: nat, p: Path, result: RouteResult, catchAll: Option<Callback>)
    requires Known(w, rank, r) && Reached(w, rank, r, route, m, i, p, result, catchAll)
    requires i <= |route| && p in w[r] && (i == |route| || Next(w[r], p, route[i]) == None)
    requires Ask(w, rank, r, p, route[i..], m).result != Handled
    ensures var o := Ask(w, rank, r, p, route[i..], m);
            Newer(o.result, result) != Handled &&
            Serve(w, rank, r, route, m) ==
              Settle(if i == |route| then w[r][p].endpoints else map[], i == |route|,
                     Newer(o.result, result), catchAll, route, m)
  {
    hide Conclude, Walk, LastAnswer, DeepestCatchAll, Select, Ask;
    var v := Walk(w[r], [], route);
    if i + 1 < |v| {
      WalkContinues(w[r], route, i);
      assert false;
    }
    WalkEnds(w[r], v, Answers(w, rank, r, v, route, m), i, result, catchAll, route, m);
  }

  // One round of the walk.
  lemma ReachedStep<R>(w: World<R>, rank: map<R, nat>, r: R, route: Path, m: Method,
                       i: nat, p: Path, result: RouteResult, catchAll: Option<Callback>)
    requires Known(w, rank, r) && Reached(w, rank, r, route, m, i, p, result, catchAll)
    ensures i <= |route| && p in w[r] && result != Handled
    ensures var o := Ask(w, rank, r, p, route[i..], m);
            var newer := Newer(o.result, result);
            var next := if i == |route| then None else Next(w[r], p, route[i]);
            if o.result == Handled then Serve(w, rank, r, route, m) == o
            else if next.Some? then
              next.value in w[r] &&
              Reached(w, rank, r, route, m, i + 1, next.value, newer, CatchAllAt(w[r][next.value], catchAll))
            else
              Serve(w, rank, r, route, m) ==
                Settle(if i == |route| then w[r][p].endpoints else map[], i == |route|, newer, catchAll, route, m)
  {
    hide Reached, Serve, Settle, Ask, Next, Newer;
    ReachedHandled(w, rank, r, route, m, i, p, result, catchAll);
    if Ask(w, rank, r, p, route[i..], m).result != Handled {
      if i < |route| && Next(w[r], p, route[i]).Some? {
        ReachedNext(w, rank, r, route, m, i, p, result, catchAll, Next(w[r], p, route[i]).value);
      } else {
        ReachedEnd(w, rank, r, route, m, i, p, result, catchAll);
      }
    }
  }

  // ----- Building and clearing routes -----

  // The two add_route calls, and remove_route, at the components of their route.
  datatype Change<+R> =
    | AddMount(path: Path, mount: Mount<R>)
    | AddEndpoint(path: Path, m: Method, callback: Callback)
    | RemoveAll(path: Path)

  function Prefixes(path: Path): set<Path> {
    set i | 0 <= i <= |path| :: path[..i]
  }

  // All three first make sure of a node at every prefix of the path.
  function Grow<R>(t: Trie<R>, path: Path): Trie<R> {
    map p | p in t.Keys + Prefixes(path) :: if p in t then t[p] else Bare()
  }

  function Apply<R>(t: Trie<R>, c: Change<R>): Trie<R> {
    var g := Grow(t, c.path);
    assert c.path[..|c.path|] == c.path;
    var n := g[c.path];
    match c
    case AddMount(path, mount) => g[path := Node(mount, n.endpoints)]
    case AddEndpoint(path, m, callback) => g[path := Node(n.mount, n.endpoints[m := callback])]
    case RemoveAll(path) => g[path := Bare()]
  }

  // What remove_route reports.
  predicate Registered<R>(t: Trie<R>, path: Path) {
    path in t && (!t[path].mount.Unmounted? || t[path].endpoints != map[])
  }

  // A change in terms of the grown trie.
  lemma Applied<R>(t: Trie<R>, c: Change<R>)
    ensures c.path in Grow(t, c.path)
    ensures var n := Grow(t, c.path)[c.path];
            && Apply(t, c) == Grow(t, c.path)[c.path :=
                 match c
                 case AddMount(_, mount) => Node(mount, n.endpoints)
                 case AddEndpoint(_, m, callback) => Node(n.mount, n.endpoints[m := callback])
                 case RemoveAll(_) => Bare()]
            && (Registered(t, c.path) <==> !n.mount.Unmounted? || n.endpoints != map[])
  {
    assert c.path[..|c.path|] == c.path;
  }

  lemma GrowNowhere<R>(t: Trie<R>)
    requires [] in t
    ensures Grow(t, []) == t
  {
    var root: Path := [];
    assert root[..0] == root;
  }

  // A bare node at p unless it is there already.
  function GrowAt<R>(t: Trie<R>, p: Path): Trie<R> {
    if p in t then t else t[p := Bare()]
  }

  lemma GrowStep<R>(t: Trie<R>, p: Path, c: Text)
    ensures Grow(t, p + [c]) == GrowAt(Grow(t, p), p + [c])
  {
    var q := p + [c];
    assert Prefixes(q) == Prefixes(p) + {q} by {
      assert q[..|q|] == q;
      forall i | 0 <= i <= |p| ensures q[..i] == p[..i] {
      }
    }
  }

  // What is where after a change: the places are those from before and the prefixes of
  // the path; only the node at the path is another one, and of that only what was set.
  lemma Changed<R>(t: Trie<R>, c: Change<R>, q: Path)
    ensures q in Apply(t, c) <==> q in t || q <= c.path
    ensures q != c.path && q in t ==> Apply(t, c)[q] == t[q]
    ensures q != c.path && q !in t && q <= c.path ==> Apply(t, c)[q] == Node(Unmounted, map[])
    ensures c.path in Apply(t, c)
    ensures var n := Apply(t, c)[c.path];
            && (c.AddMount? ==> n == Node(c.mount, if c.path in t then t[c.path].endpoints else map[]))
            && (c.AddEndpoint? ==>
                 && n.mount == (if c.path in t then t[c.path].mount else Unmounted)
                 && c.m in n.endpoints && n.endpoints[c.m] == c.callback
                 && forall k :: k != c.m ==>
                      && (k in n.endpoints <==> c.path in t && k in t[c.path].endpoints)
                      && (k in n.endpoints ==> n.endpoints[k] == t[c.path].endpoints[k]))
            && (c.RemoveAll? ==> n == Node(Unmounted, map[]))
  {
    assert c.path[..|c.path|] == c.path;
    if q <= c.path {
      assert q == c.path[..|q|];
    }
  }

  // What remove_route reports: there is something at the path, added since it was
  // last removed; a new router has nothing anywhere.
  lemma Reported<R>(t: Trie<R>, c: Change<R>, path: Path)
    requires [] in t
    ensures c.path != path ==> (Registered(Apply(t, c), path) <==> Registered(t, path))
    ensures c == RemoveAll(path) ==> !Registered(Apply(t, c), path)
    ensures c.AddEndpoint? && c.path == path ==> Registered(Apply(t, c), path)
    ensures c.AddMount? && c.path == path ==>
              (Registered(Apply(t, c), path) <==> !c.mount.Unmounted? || (path in t && t[path].endpoints != map[]))
    ensures t == map[[] := Node(Unmounted, map[])] ==> !Registered(t, path)
  {
    hide Apply;
    Changed(t, c, path);
  }
}
