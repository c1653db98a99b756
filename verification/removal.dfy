// When removing a route that is not registered changes an answer: the empty nodes that
// remove_route of src/lib/router.cpp leaves behind take requests away from a wildcard
// beside them, and from the mounts above them.
module Removal {
  import opened Bytes
  import opened Paths
  import opened Routing
  import opened Dispatch
  import opened Litter

  // ----- Requests as the server can receive them -----

  predicate IsRequestMethod(m: Method) {
    m != CatchAllHere && m != CatchAllRecursive
  }

  predicate IsRoute(p: Path) {
    forall i :: 0 <= i < |p| ==> IsComponent(p[i])
  }

  predicate IsRequest(route: Path, m: Method) {
    IsRoute(route) && IsRequestMethod(m)
  }

  // Every place is one that add_route or remove_route can create.
  ghost predicate Spellable<R>(t: Trie<R>) {
    forall p :: p in t ==> IsRoute(p)
  }

  ghost predicate FromText<R>(c: Change<R>) {
    exists route: Text :: c.path == Components(route)
  }

  lemma {:induction false} AlwaysSpellable<R>(changes: seq<Change<R>>)
    requires forall i :: 0 <= i < |changes| ==> FromText(changes[i])
    ensures Spellable(Build(changes))
  {
    if changes != [] {
      var c := changes[|changes| - 1];
      AlwaysSpellable(changes[..|changes| - 1]);
      assert FromText(c);
      var route: Text :| c.path == Components(route);
      ComponentsAreComponents(route);
      Applied(Build(changes[..|changes| - 1]), c);
    }
  }

  // There is always a component that no child of p has.
  lemma {:induction false} LongestLast(ps: set<Path>) returns (n: nat)
    ensures forall p :: p in ps && p != [] ==> |p[|p| - 1]| <= n
    decreases ps
  {
    n := 0;
    if ps != {} {
      var p :| p in ps;
      var k := LongestLast(ps - {p});
      n := if p != [] && |p[|p| - 1]| > k then |p[|p| - 1]| else k;
      assert forall q :: q in ps ==> q == p || q in ps - {p};
    }
  }

  lemma {:induction false} FreshComponent<R>(t: Trie<R>, p: Path) returns (c: Text)
    ensures IsComponent(c) && c != WILDCARD && p + [c] !in t
  {
    var n := LongestLast(t.Keys);
    c := seq(n + 2, i => 0x61);
    assert (p + [c])[|p + [c]| - 1] == c;
  }

  // Every request that can be received is answered in w' as in w.
  ghost predicate SameAnswers<R>(w: World<R>, w': World<R>, rank: map<R, nat>, r: R)
    requires Known(w, rank, r) && Known(w', rank, r)
  {
    forall route, m :: IsRequest(route, m) ==> Serve(w', rank, r, route, m) == Serve(w, rank, r, route, m)
  }

  // ----- What is taken from the mounts above -----

  // The route ends inside the new nodes.
  ghost predicate Stranded<R>(t: Trie<R>, path: Path, route: Path)
    requires IsTrie(t)
  {
    Diverted(t, path, route) && Matches(path[Found(t, path) + 1..], route[Found(t, path) + 1..])
  }

  // Of the mounts from the root down to the last old node one handles the request, or
  // all say NotFound.
  ghost predicate ClearAbove<R>(w: World<R>, rank: map<R, nat>, r: R, path: Path, route: Path, m: Method)
    requires Known(w, rank, r) && Diverted(w[r], path, route)
  {
    var a := AnswersAbove(w, rank, r, path, route, m);
    (exists i :: 0 <= i < |a| && a[i].result == Handled) || (forall i :: 0 <= i < |a| ==> a[i].result == NotFound)
  }

  // Without a wildcard beside the first new node, a diverted request used to stop above it.
  lemma {:induction false} StoppedAbove<R>(w: World<R>, rank: map<R, nat>, r: R, path: Path, route: Path, m: Method)
    requires Known(w, rank, r) && Diverted(w[r], path, route) && Top(w[r], path) + [WILDCARD] !in w[r]
    ensures var a := AnswersAbove(w, rank, r, path, route, m);
            Serve(w, rank, r, route, m) ==
            match FirstHandled(a)
            case Some(i) => a[i]
            case None => Settle(map[], false, LastAnswer(a), CatchAllFor(w[r], Top(w[r], path)), route, m)
  {
    hide Found, Line, Answers, FirstHandled, LastAnswer, DeepestCatchAll, Diverted, Walk;
    DivertedTop(w[r], path, route);
    var n := Found(w[r], path);
    WalkIsLine(w[r], route, n);
    var v := Walk(w[r], [], route);
    if n + 1 < |v| {
      WalkContinues(w[r], route, n);
      assert false;
    }
    assert v == v[..n + 1];
  }

  // Ending among empty nodes comes to the same as stopping short of them unless a mount
  // said more than NotFound.
  lemma SettledAlike(a: seq<Outcome>, catchAll: Option<Callback>, route: Path, m: Method)
    requires FirstHandled(a) == None
    ensures LastAnswer(a) != Handled
    ensures Settle(map[], true, LastAnswer(a), catchAll, route, m)
            == Settle(map[], false, LastAnswer(a), catchAll, route, m)
            <==> forall i :: 0 <= i < |a| ==> a[i].result == NotFound
  {
  }

  // Then a request is answered as before if and only if it does not end inside the new
  // nodes, or one of the mounts above handles it, or all of them say NotFound.
  lemma {:induction false} NewNodesForget<R>(w: World<R>, w': World<R>, rank: map<R, nat>, r: R, path: Path,
                                             route: Path, m: Method)
    requires Known(w, rank, r) && Known(w', rank, r) && OnlyDiffers(w, w', r)
    requires !Registered(w[r], path) && w'[r] == Apply(w[r], RemoveAll(path))
    requires path !in w[r] ==> Top(w[r], path) + [WILDCARD] !in w[r]
    ensures Serve(w', rank, r, route, m) == Serve(w, rank, r, route, m)
            <==> (Stranded(w[r], path, route) ==> ClearAbove(w, rank, r, path, route, m))
  {
    hide Known, Serve, AnswersAbove, Apply, Registered, OnlyDiffers, Diverted, Top, Found, CatchAllFor, Matches, IsTrie;
    hide Settle, FirstHandled, LastAnswer;
    KnownTrie(w, rank, r);
    RemovalAnswers(w, w', rank, r, path, route, m);
    if Diverted(w[r], path, route) {
      DivertedTop(w[r], path, route);
      StoppedAbove(w, rank, r, path, route, m);
      var a := AnswersAbove(w, rank, r, path, route, m);
      if FirstHandled(a) == None {
        SettledAlike(a, CatchAllFor(w[r], Top(w[r], path)), route, m);
      }
    }
  }

  // Without a wildcard beside the first new node, and wherever routers are mounted, it
  // changes the answer to no request if and only if, for every request that ends inside
  // the new nodes, one of the mounts above handles it or all of them say NotFound.
  lemma {:induction false} RemovalTakesFromMounts<R>(w: World<R>, w': World<R>, rank: map<R, nat>, r: R, path: Path)
    requires Known(w, rank, r) && Known(w', rank, r) && OnlyDiffers(w, w', r)
    requires !Registered(w[r], path) && w'[r] == Apply(w[r], RemoveAll(path))
    requires path !in w[r] ==> Top(w[r], path) + [WILDCARD] !in w[r]
    ensures SameAnswers(w, w', rank, r) <==>
            forall route, m :: IsRequest(route, m) && Stranded(w[r], path, route) ==>
              ClearAbove(w, rank, r, path, route, m)
  {
    hide Known, Serve, Apply, Registered, OnlyDiffers, Diverted, Matches, ClearAbove, Top, IsTrie, IsRequest;
    KnownTrie(w, rank, r);
    forall route, m
      ensures Serve(w', rank, r, route, m) == Serve(w, rank, r, route, m)
              <==> (Stranded(w[r], path, route) ==> ClearAbove(w, rank, r, path, route, m))
    {
      NewNodesForget(w, w', rank, r, path, route, m);
    }
  }

  // In particular nothing changes if nothing is mounted on a prefix of the path either.
  lemma {:induction false} NothingMountedAbove<R>(w: World<R>, w': World<R>, rank: map<R, nat>, r: R, path: Path,
                                                  route: Path, m: Method)
    requires Known(w, rank, r) && Known(w', rank, r) && OnlyDiffers(w, w', r)
    requires !Registered(w[r], path) && w'[r] == Apply(w[r], RemoveAll(path))
    requires path !in w[r] ==> Top(w[r], path) + [WILDCARD] !in w[r]
    requires forall i :: 0 <= i <= |path| && path[..i] in w[r] ==> w[r][path[..i]].mount.Unmounted?
    ensures Serve(w', rank, r, route, m) == Serve(w, rank, r, route, m)
  {
    hide Known, Serve, Apply, Registered, OnlyDiffers, Diverted, Top, Found, Matches, IsTrie;
    KnownTrie(w, rank, r);
    NewNodesForget(w, w', rank, r, path, route, m);
    if Diverted(w[r], path, route) {
      var n := Found(w[r], path);
      var a := AnswersAbove(w, rank, r, path, route, m);
      forall i | 0 <= i < |a| ensures a[i].result == NotFound {
        BareAsk(w, rank, r, path[..i], route[i..], m);
      }
    }
  }

  // ----- Where a walk ends -----

  // The last node, and whether all of the route has been used.
  function Stop<R>(t: Trie<R>, p: Path, rest: Path): (Path, bool)
    decreases |rest|
  {
    if rest == [] then (p, true)
    else match Next(t, p, rest[0]) case None => (p, false) case Some(q) => Stop(t, q, rest[1..])
  }

  lemma {:induction false} WalkStops<R>(t: Trie<R>, p: Path, rest: Path)
    requires p in t
    ensures var v := Walk(t, p, rest); Stop(t, p, rest) == (v[|v| - 1], |v| == |rest| + 1)
    ensures Stop(t, p, rest).0 in t
    ensures !Stop(t, p, rest).1 ==> Stop(t, p, rest).0 + [WILDCARD] !in t
    decreases |rest|
  {
    if rest != [] && Next(t, p, rest[0]).Some? {
      WalkStops(t, Next(t, p, rest[0]).value, rest[1..]);
    }
  }

  lemma {:induction false} StopJoin<R>(t: Trie<R>, p: Path, a: Path, b: Path)
    requires Stop(t, p, a).1
    ensures Stop(t, p, a + b) == Stop(t, Stop(t, p, a).0, b)
    decreases |a|
  {
    if a == [] {
      assert a + b == b;
    } else {
      StopJoin(t, Next(t, p, a[0]).value, a[1..], b);
      assert (a + b)[0] == a[0] && (a + b)[1..] == a[1..] + b;
    }
  }

  lemma {:induction false} StopAtPlace<R>(t: Trie<R>, p: Path, i: nat)
    requires IsTrie(t) && p in t && i <= |p|
    ensures Stop(t, p[..i], p[i..]) == (p, true)
    decreases |p| - i
  {
    if i == |p| {
      assert p[..i] == p;
    } else {
      PrefixIn(t, p, i + 1);
      assert p[..i + 1] == p[..i] + [p[i]];
      assert p[i..][0] == p[i] && p[i..][1..] == p[i + 1..];
      StopAtPlace(t, p, i + 1);
    }
  }

  // The answer where nothing is mounted from the root down to the end of the walk.
  lemma {:induction false} ServeAtStop<R>(w: World<R>, rank: map<R, nat>, r: R, route: Path, m: Method,
                                          p: Path, complete: bool)
    requires Known(w, rank, r) && Stop(w[r], [], route) == (p, complete)
    requires forall i :: 0 <= i <= |p| && p[..i] in w[r] ==> w[r][p[..i]].mount.Unmounted?
    ensures p in w[r] && Serve(w, rank, r, route, m) ==
                         Settle(w[r][p].endpoints, complete, NotFound, CatchAllFor(w[r], p), route, m)
  {
    hide Known, Settle, DeepestCatchAll, Stop, Walk, Conclude, IsTrie, Answers;
    KnownTrie(w, rank, r);
    var t, v := w[r], Walk(w[r], [], route);
    WalkStops(t, [], route);
    WalkIsLine(t, route, |v| - 1);
    assert v == v[..|v| - 1 + 1];
    UnmountedAnswers(w, rank, r, v, route, m);
  }

  // ----- What is taken from the wildcard beside -----

  // The answer of the recursive catch-all in force, if there is one.
  function Default(catchAll: Option<Callback>, route: Path): Outcome {
    match catchAll case Some(cb) => Ran(cb, route) case None => NOT_FOUND
  }

  lemma SettleCases(e: Endpoints, complete: bool, catchAll: Option<Callback>, route: Path, m: Method)
    ensures Settle(e, complete, NotFound, catchAll, route, m) ==
            if complete && e != map[] then
              match Select(e, m) case Some(cb) => Ran(cb, route) case None => Outcome(InvalidMethod, None)
            else Default(catchAll, route)
  {
  }

  // The wildcard beside the first new node.
  ghost function Sibling<R>(t: Trie<R>, path: Path): Path
    requires IsTrie(t)
  {
    Top(t, path) + [WILDCARD]
  }

  // Nothing is mounted from the root down to the first new node, or under its wildcard
  // sibling.
  ghost predicate UnmountedAround<R>(t: Trie<R>, path: Path)
    requires IsTrie(t)
  {
    forall p :: p in t && (p <= Top(t, path) || Sibling(t, path) <= p) ==> t[p].mount.Unmounted?
  }

  // Requests that end at p or just below it get nothing but this catch-all.
  ghost predicate Overruled<R>(t: Trie<R>, p: Path, catchAll: Option<Callback>)
    requires IsTrie(t) && p in t
  {
    var e := t[p].endpoints;
    && (e != map[] ==> catchAll.Some? && forall m :: IsRequestMethod(m) ==> Select(e, m) == catchAll)
    && (e == map[] || p + [WILDCARD] !in t ==> CatchAllFor(t, p) == catchAll)
  }

  // What can be looked up before the call: there is a node for all of the path; or there
  // is no wildcard beside the first new node; or all that is under the wildcard is
  // overruled by the catch-all in force above.
  ghost predicate Harmless<R>(t: Trie<R>, path: Path)
    requires IsTrie(t)
  {
    path in t ||
    forall p :: p in t && Sibling(t, path) <= p ==> Overruled(t, p, CatchAllFor(t, Top(t, path)))
  }

  lemma {:induction false} AroundCovers<R>(t: Trie<R>, path: Path, p: Path, i: nat)
    requires IsTrie(t) && UnmountedAround(t, path) && i <= |p| && p[..i] in t
    requires p == Top(t, path) || Sibling(t, path) <= p
    ensures t[p[..i]].mount.Unmounted?
  {
    var n := |Top(t, path)|;
    if i <= n {
      assert p[..i] == Top(t, path)[..i];
    } else {
      assert p[..i][..n + 1] == p[..n + 1];
    }
  }

  // A diverted request gets the catch-all in force, where nothing is mounted.
  lemma {:induction false} QuietDiversion<R>(w: World<R>, rank: map<R, nat>, r: R, path: Path, route: Path, m: Method)
    requires Known(w, rank, r) && Diverted(w[r], path, route) && UnmountedAround(w[r], path)
    ensures Diversion(w, rank, r, path, route, m) == Default(CatchAllFor(w[r], Top(w[r], path)), route)
  {
    hide Known, Diverted, CatchAllFor, Settle, AnswersAbove, Default, IsTrie, UnmountedAround, Matches;
    KnownTrie(w, rank, r);
    DivertedTop(w[r], path, route);
    var t, a := w[r], AnswersAbove(w, rank, r, path, route, m);
    var n := Found(t, path);
    forall i | 0 <= i < |a| ensures a[i] == NOT_FOUND {
      assert Top(t, path)[..i] == path[..i];
      AroundCovers(t, path, Top(t, path), i);
      BareAsk(w, rank, r, path[..i], route[i..], m);
    }
    SettleCases(map[], Matches(path[n + 1..], route[n + 1..]), CatchAllFor(t, Top(t, path)), route, m);
  }

  // Before, it went to the wildcard beside, if there is one.
  lemma {:induction false} DivertedBeside<R>(t: Trie<R>, path: Path, route: Path)
    requires IsTrie(t) && Diverted(t, path, route)
    ensures var (p, complete) := Stop(t, [], route);
            p in t && if Sibling(t, path) in t then Sibling(t, path) <= p else p == Top(t, path) && !complete
  {
    hide Walk, Stop, Found, Diverted, IsTrie;
    RootIn(t);
    DivertedTop(t, path, route);
    var n, v := Found(t, path), Walk(t, [], route);
    WalkStops(t, [], route);
    WalkIsLine(t, route, |v| - 1);
    assert v[..|v| - 1 + 1] == v;
    if n + 1 < |v| {
      WalkContinues(t, route, n);
      assert v[n + 1] == v[|v| - 1][..n + 1];
    } else {
      assert v[n] == v[|v| - 1];
    }
  }

  // Nothing is mounted under the wildcard beside the first new node.
  ghost predicate UnmountedBeside<R>(t: Trie<R>, path: Path)
    requires IsTrie(t)
  {
    forall p :: p in t && Sibling(t, path) <= p ==> t[p].mount.Unmounted?
  }

  // The rest of the walk, past the node the first new one hangs off.
  lemma {:induction false} WalkBeside<R>(t: Trie<R>, path: Path, route: Path) returns (tail: seq<Path>)
    requires IsTrie(t) && Diverted(t, path, route)
    ensures [] in t && Walk(t, [], route) == Line(Top(t, path)) + tail
    ensures forall i :: 0 <= i < |tail| ==> tail[i] in t && Sibling(t, path) <= tail[i]
  {
    hide Walk, Next, Found, Diverted, IsTrie, Line, Turns;
    RootIn(t);
    DivertedTop(t, path, route);
    var n, v := Found(t, path), Walk(t, [], route);
    WalkIsLine(t, route, n);
    tail := v[n + 1..];
    assert v == v[..n + 1] + tail;
    forall i | 0 <= i < |tail| ensures Sibling(t, path) <= tail[i] {
      WalkContinues(t, route, n);
      BesideIsSibling(t, path, route);
      WalkIsLine(t, route, n + 1 + i);
      LineAt(tail[i], n + 1);
      assert v[..n + 1 + i + 1][n + 1] == v[n + 1];
    }
  }

  lemma LineAt(p: Path, i: nat)
    requires i <= |p|
    ensures Line(p)[i] == p[..i] && Line(p)[i] <= p
  {
  }

  lemma BesideIsSibling<R>(t: Trie<R>, path: Path, route: Path)
    requires IsTrie(t) && Diverted(t, path, route)
    ensures [] in t && Found(t, path) < |route|
    ensures Next(t, Top(t, path), route[Found(t, path)]).Some? ==>
              Next(t, Top(t, path), route[Found(t, path)]) == Some(Sibling(t, path))
  {
    DivertedTop(t, path, route);
  }

  // No mount above handles the request.
  ghost predicate LeftAlone<R>(w: World<R>, rank: map<R, nat>, r: R, path: Path, route: Path, m: Method)
    requires Known(w, rank, r) && Diverted(w[r], path, route)
  {
    FirstHandled(AnswersAbove(w, rank, r, path, route, m)) == None
  }

  // What such a request gets where its walk ended before: at the last old node, or under
  // the wildcard beside.
  ghost function EndBefore<R>(w: World<R>, rank: map<R, nat>, r: R, path: Path, route: Path, m: Method): Outcome
    requires Known(w, rank, r) && Diverted(w[r], path, route) && LeftAlone(w, rank, r, path, route, m)
  {
    WalkStops(w[r], [], route);
    var (p, complete) := Stop(w[r], [], route);
    Settle(w[r][p].endpoints, complete, LastAnswer(AnswersAbove(w, rank, r, path, route, m)),
           CatchAllFor(w[r], p), route, m)
  }

  // What it gets among the new nodes.
  ghost function EndAfter<R>(w: World<R>, rank: map<R, nat>, r: R, path: Path, route: Path, m: Method): Outcome
    requires Known(w, rank, r) && Diverted(w[r], path, route) && LeftAlone(w, rank, r, path, route, m)
  {
    var n := Found(w[r], path);
    Settle(map[], Matches(path[n + 1..], route[n + 1..]), LastAnswer(AnswersAbove(w, rank, r, path, route, m)),
           CatchAllFor(w[r], Top(w[r], path)), route, m)
  }

  // A walk past whose first part nothing is mounted.
  lemma {:induction false} ServeByParts<R>(w: World<R>, rank: map<R, nat>, r: R, route: Path, m: Method,
                                           a: seq<Outcome>, b: seq<Outcome>)
    requires Known(w, rank, r) && [] in w[r] && Answers(w, rank, r, Walk(w[r], [], route), route, m) == a + b
    requires forall i :: 0 <= i < |a| ==> Fair(a[i])
    requires forall i :: 0 <= i < |b| ==> b[i] == NOT_FOUND
    ensures var (p, complete) := Stop(w[r], [], route);
            p in w[r] && Serve(w, rank, r, route, m) ==
              match FirstHandled(a)
              case Some(i) => a[i]
              case None => Settle(w[r][p].endpoints, complete, LastAnswer(a), CatchAllFor(w[r], p), route, m)
  {
    hide Known, IsTrie, Walk, Answers, FirstHandled, LastAnswer, DeepestCatchAll, Settle, Stop, Line, Fair;
    KnownTrie(w, rank, r);
    var t, v := w[r], Walk(w[r], [], route);
    QuietEnd(a, b);
    WalkStops(t, [], route);
    WalkIsLine(t, route, |v| - 1);
    assert v[..|v| - 1 + 1] == v;
  }

  // Before the call, a request that is diverted now got the answer of the first mount
  // above that handles it, and that of where its walk ended otherwise.
  lemma {:induction false} BesideAnswers<R>(w: World<R>, rank: map<R, nat>, r: R, path: Path, route: Path, m: Method)
    requires Known(w, rank, r) && Diverted(w[r], path, route) && UnmountedBeside(w[r], path)
    ensures Serve(w, rank, r, route, m) ==
            match FirstHandled(AnswersAbove(w, rank, r, path, route, m))
            case Some(i) => AnswersAbove(w, rank, r, path, route, m)[i]
            case None => EndBefore(w, rank, r, path, route, m)
  {
    hide Known, IsTrie, Walk, Diverted, Answers, AnswersAbove, FirstHandled, LastAnswer, Settle, Stop, Fair;
    hide Line, Top, UnmountedBeside, CatchAllFor, Serve;
    KnownTrie(w, rank, r);
    var tail := WalkBeside(w[r], path, route);
    var b := QuietBeside(w, rank, r, path, route, m, tail);
    WalkStops(w[r], [], route);
    ServeByParts(w, rank, r, route, m, AnswersAbove(w, rank, r, path, route, m), b);
  }

  lemma {:induction false} QuietBeside<R>(w: World<R>, rank: map<R, nat>, r: R, path: Path, route: Path, m: Method,
                                          tail: seq<Path>)
    returns (b: seq<Outcome>)
    requires Known(w, rank, r) && Diverted(w[r], path, route) && UnmountedBeside(w[r], path)
    requires Walk(w[r], [], route) == Line(Top(w[r], path)) + tail
    requires forall i :: 0 <= i < |tail| ==> tail[i] in w[r] && Sibling(w[r], path) <= tail[i]
    ensures Answers(w, rank, r, Walk(w[r], [], route), route, m) == AnswersAbove(w, rank, r, path, route, m) + b
    ensures forall i :: 0 <= i < |b| ==> b[i] == NOT_FOUND
  {
    hide Known, IsTrie, Walk, Diverted, Answers, AnswersAbove, Ask, Line;
    KnownTrie(w, rank, r);
    TopLine(w[r], path);
    DivertedTop(w[r], path, route);
    var n, v := Found(w[r], path), Walk(w[r], [], route);
    var a, all := AnswersAbove(w, rank, r, path, route, m), Answers(w, rank, r, v, route, m);
    b := all[n + 1..];
    forall i | n < i < |v| ensures all[i] == NOT_FOUND {
      assert v[i] == tail[i - n - 1];
      BareAsk(w, rank, r, v[i], route[i..], m);
    }
    assert all == a + b;
  }

  // Wherever routers are mounted but under that wildcard, a request is answered as before
  // if and only if it is not diverted, or a mount above handles it, or where its walk
  // ended before it got the same as it does among the new nodes.
  lemma {:induction false} RequestUnmoved<R>(w: World<R>, w': World<R>, rank: map<R, nat>, r: R, path: Path,
                                             route: Path, m: Method)
    requires Known(w, rank, r) && Known(w', rank, r) && OnlyDiffers(w, w', r)
    requires !Registered(w[r], path) && w'[r] == Apply(w[r], RemoveAll(path))
    requires path !in w[r] ==> UnmountedBeside(w[r], path)
    ensures Serve(w', rank, r, route, m) == Serve(w, rank, r, route, m) <==>
            (Diverted(w[r], path, route) && LeftAlone(w, rank, r, path, route, m) ==>
              EndBefore(w, rank, r, path, route, m) == EndAfter(w, rank, r, path, route, m))
  {
    hide Known, Serve, AnswersAbove, Apply, Registered, OnlyDiffers, Diverted, Found, CatchAllFor, Matches, IsTrie;
    hide Settle, FirstHandled, LastAnswer, Stop, UnmountedBeside, EndBefore;
    KnownTrie(w, rank, r);
    RemovalAnswers(w, w', rank, r, path, route, m);
    if Diverted(w[r], path, route) {
      DivertedTop(w[r], path, route);
      BesideAnswers(w, rank, r, path, route, m);
    }
  }

  lemma {:induction false} HarmlessSame<R>(w: World<R>, rank: map<R, nat>, r: R, path: Path, route: Path, m: Method)
    requires Known(w, rank, r) && Diverted(w[r], path, route) && UnmountedAround(w[r], path)
    requires Harmless(w[r], path) && IsRequestMethod(m)
    ensures Serve(w, rank, r, route, m) == Diversion(w, rank, r, path, route, m)
  {
    hide Known, CatchAllFor, Settle, Select, Diversion, Serve, Stop, IsTrie, UnmountedAround, Top, Diverted;
    hide IsRequestMethod;
    KnownTrie(w, rank, r);
    QuietDiversion(w, rank, r, path, route, m);
    var t := w[r];
    var (p, complete) := Stop(t, [], route);
    DivertedBeside(t, path, route);
    forall i | 0 <= i <= |p| && p[..i] in t ensures t[p[..i]].mount.Unmounted? {
      AroundCovers(t, path, p, i);
    }
    ServeAtStop(w, rank, r, route, m, p, complete);
    SettleCases(t[p].endpoints, complete, CatchAllFor(t, p), route, m);
    WalkStops(t, [], route);
    DivertedTop(t, path, route);
    if Sibling(t, path) in t {
      assert Overruled(t, p, CatchAllFor(t, Top(t, path)));
    }
  }

  // A request that is diverted now and got to k, under the sibling, before.
  function RouteTo(path: Path, n: nat, k: Path): Path
    requires n < |path| && n < |k|
  {
    path[..n + 1] + k[n + 1..]
  }

  lemma {:induction false} ReachedBeside<R>(t: Trie<R>, path: Path, k: Path)
    requires IsTrie(t) && path !in t && k in t && Sibling(t, path) <= k
    ensures Found(t, path) < |k| && Stop(t, [], RouteTo(path, Found(t, path), k)) == (k, true)
  {
    hide Found, IsTrie;
    var n, p := Found(t, path), Top(t, path);
    var c, rest := path[n], k[n + 1..];
    assert path[..n + 1] == p + [c] && k[..n + 1] == Sibling(t, path);
    assert RouteTo(path, n, k) == p + ([c] + rest) && ([c] + rest)[1..] == rest;
    PrefixIn(t, k, n + 1);
    StopAtPlace(t, p, 0);
    assert p[..0] == [] && p[0..] == p;
    StopJoin(t, [], p, [c] + rest);
    assert Next(t, p, c) == Some(Sibling(t, path));
    StopAtPlace(t, k, n + 1);
  }

  lemma {:induction false} DivertedTo<R>(t: Trie<R>, path: Path, k: Path, more: Path)
    requires IsTrie(t) && path !in t && k in t && Sibling(t, path) <= k && Found(t, path) < |k|
    ensures Diverted(t, path, RouteTo(path, Found(t, path), k) + more)
  {
    hide Found, IsTrie, Walk;
    var n, p := Found(t, path), Top(t, path);
    var q := [path[n]] + k[n + 1..] + more;
    RootIn(t);
    assert path[..n + 1] == p + [path[n]];
    assert RouteTo(path, n, k) + more == p + q && (p + q)[n] == path[n];
    assert p[..0] == [] && p[0..] + q == p + q && p[..n] == p;
    WalkThrough(t, p, q, 0);
  }

  lemma {:induction false} RealRoute<R>(t: Trie<R>, path: Path, n: nat, k: Path)
    requires Spellable(t) && IsRoute(path) && k in t && n < |path| && n < |k|
    ensures IsRoute(RouteTo(path, n, k))
  {
    var route := RouteTo(path, n, k);
    assert IsRoute(k);
    forall i | 0 <= i < |route| ensures IsComponent(route[i]) {
      assert route[i] == if i <= n then path[i] else k[i];
    }
  }

  // What is not overruled is missed by some request.
  lemma {:induction false} MissedAt<R>(t: Trie<R>, path: Path, k: Path, catchAll: Option<Callback>)
    returns (route: Path, m: Method, complete: bool)
    requires IsTrie(t) && path !in t && Spellable(t) && IsRoute(path)
    requires k in t && Sibling(t, path) <= k && !Overruled(t, k, catchAll)
    ensures IsRequest(route, m) && Diverted(t, path, route) && Stop(t, [], route) == (k, complete)
    ensures Settle(t[k].endpoints, complete, NotFound, CatchAllFor(t, k), route, m) != Default(catchAll, route)
  {
    hide Found, IsTrie, Stop, CatchAllFor, Settle, Select, Diverted;
    ReachedBeside(t, path, k);
    var n := Found(t, path);
    route, m, complete := RouteTo(path, n, k), GET, true;
    RealRoute(t, path, n, k);
    DivertedTo(t, path, k, []);
    assert route + [] == route;
    var e := t[k].endpoints;
    if e != map[] && catchAll.Some? && exists x :: IsRequestMethod(x) && Select(e, x) != catchAll {
      m :| IsRequestMethod(m) && Select(e, m) != catchAll;
    } else if e != map[] && catchAll.Some? {
      var c := FreshComponent(t, k);
      DivertedTo(t, path, k, [c]);
      StopJoin(t, [], route, [c]);
      StopShort(t, k, c);
      route, complete := route + [c], false;
    }
    SettleCases(e, complete, CatchAllFor(t, k), route, m);
  }

  lemma StopShort<R>(t: Trie<R>, p: Path, c: Text)
    requires p + [c] !in t && p + [WILDCARD] !in t
    ensures Stop(t, p, [c]) == (p, false)
  {
  }

  // Wherever else routers are mounted, removing a route that is not registered changes
  // the answer to no request if and only if it is harmless.
  lemma {:induction false} RemovalChangesNothing<R>(w: World<R>, w': World<R>, rank: map<R, nat>, r: R, path: Path)
    requires Known(w, rank, r) && Known(w', rank, r) && OnlyDiffers(w, w', r)
    requires !Registered(w[r], path) && w'[r] == Apply(w[r], RemoveAll(path))
    requires Spellable(w[r]) && IsRoute(path)
    requires path !in w[r] ==> UnmountedAround(w[r], path)
    ensures SameAnswers(w, w', rank, r) <==> Harmless(w[r], path)
  {
    hide Known, Serve, Apply, Registered, OnlyDiffers, Diverted, Diversion, UnmountedAround, Spellable, IsRoute;
    hide Overruled, Stop, Settle, Default, IsTrie, Top, IsRequestMethod, CatchAllFor;
    KnownTrie(w, rank, r);
    var t := w[r];
    if Harmless(t, path) {
      hide Harmless;
      forall route, m | IsRequest(route, m)
        ensures Serve(w', rank, r, route, m) == Serve(w, rank, r, route, m)
      {
        RemovalAnswers(w, w', rank, r, path, route, m);
        if Diverted(t, path, route) {
          DivertedTop(t, path, route);
          HarmlessSame(w, rank, r, path, route, m);
        }
      }
    } else {
      var catchAll := CatchAllFor(t, Top(t, path));
      var k :| k in t && Sibling(t, path) <= k && !Overruled(t, k, catchAll);
      var route, m, complete := MissedAt(t, path, k, catchAll);
      forall i | 0 <= i <= |k| && k[..i] in t ensures t[k[..i]].mount.Unmounted? {
        AroundCovers(t, path, k, i);
      }
      ServeAtStop(w, rank, r, route, m, k, complete);
      QuietDiversion(w, rank, r, path, route, m);
      RemovalAnswers(w, w', rank, r, path, route, m);
      assert Serve(w', rank, r, route, m) != Serve(w, rank, r, route, m);
    }
  }

  // ----- The two ways it goes wrong, by example -----

  // The root is all there is of the path [c].
  lemma {:induction false} FirstPlace<R>(t: Trie<R>, c: Text)
    requires IsTrie(t) && [c] !in t
    ensures Found(t, [c]) == 0 && Top(t, [c]) == [] && Sibling(t, [c]) == [WILDCARD]
    ensures Diverted(t, [c], [c]) && Matches([c][1..], [c][1..])
  {
    var path: Path := [c];
    assert Parent(path) == [] && path[..0] == [] && [] + [c] == path && [] + [WILDCARD] == [WILDCARD];
    assert Walk(t, [], path)[0] == [];
  }

  // Only /* has a callback, for GET.
  ghost predicate Shadowing<R>(t: Trie<R>, cb: Callback) {
    && (forall p :: p in t <==> p == [] || p == [WILDCARD])
    && t[[]] == Bare() && t[[WILDCARD]] == Node(Unmounted, map[GET := cb])
  }

  lemma ShadowingTrie<R>(t: Trie<R>, c: Text, cb: Callback)
    requires c != WILDCARD && Shadowing(t, cb)
    ensures IsTrie(t) && UnmountedAround(t, [c]) && !Registered(t, [c]) && [c] !in t
    ensures [WILDCARD] in t && t[[WILDCARD]].endpoints == map[GET := cb] && CatchAllFor(t, []) == None
  {
    var child: Path := [c];
    assert child[0] == c;
    forall p | p in t ensures HasParent(t, p) {
      assert p != [] ==> Parent(p) == [];
    }
  }

  // Removing /c, which was never added, leaves GET /c without it.
  lemma {:induction false} WildcardShadowed<R>(w: World<R>, w': World<R>, rank: map<R, nat>, r: R,
                                               c: Text, cb: Callback)
    requires Known(w, rank, r) && Known(w', rank, r) && OnlyDiffers(w, w', r) && c != WILDCARD
    requires Shadowing(w[r], cb) && w'[r] == Apply(w[r], RemoveAll([c]))
    ensures !Registered(w[r], [c])
    ensures Serve(w, rank, r, [c], GET) == Ran(cb, [c]) && Serve(w', rank, r, [c], GET) == NOT_FOUND
  {
    hide Known, Serve, Apply, Registered, Diverted, Diversion, UnmountedAround, Stop, IsTrie, Shadowing, CatchAllFor;
    hide OnlyDiffers, Top, Sibling, Found;
    KnownTrie(w, rank, r);
    var t := w[r];
    ShadowingTrie(t, c, cb);
    FirstPlace(t, c);
    ReachedBeside(t, [c], [WILDCARD]);
    assert RouteTo([c], 0, [WILDCARD]) == [c];
    forall i | 0 <= i <= 1 && [WILDCARD][..i] in t ensures t[[WILDCARD][..i]].mount.Unmounted? {
      AroundCovers(t, [c], [WILDCARD], i);
    }
    ServeAtStop(w, rank, r, [c], GET, [WILDCARD], true);
    SettleCases(map[GET := cb], true, CatchAllFor(t, [WILDCARD]), [c], GET);
    assert GET in map[GET := cb];
    RemovalAnswers(w, w', rank, r, [c], [c], GET);
    QuietDiversion(w, rank, r, [c], [c], GET);
  }

  // Router s has a callback for GET /c alone, and r has s mounted at its root alone.
  ghost predicate Nesting<R>(w: World<R>, r: R, s: R, c: Text, cb: Callback)
    requires r in w && s in w
  {
    && (forall p :: p in w[s] <==> p == [] || p == [c])
    && w[s][[]] == Bare() && w[s][[c]] == Node(Unmounted, map[GET := cb])
    && (forall p :: p in w[r] <==> p == []) && w[r][[]] == Node(Nested(s), map[])
  }

  // s alone answers InvalidMethod to other requests for /c.
  lemma {:induction false} InnerAnswer<R>(w: World<R>, rank: map<R, nat>, r: R, s: R, c: Text, cb: Callback, m: Method)
    requires Known(w, rank, r) && Known(w, rank, s) && Nesting(w, r, s, c, cb) && m != GET
    ensures Serve(w, rank, s, [c], m) == Outcome(InvalidMethod, None)
  {
    hide Known, Serve, Stop, CatchAllFor, IsTrie;
    KnownTrie(w, rank, s);
    StopAtPlace(w[s], [c], 0);
    assert [c][..0] == [] && [c][0..] == [c] && [c][..1] == [c];
    ServeAtStop(w, rank, s, [c], m, [c], true);
    SettleCases(map[GET := cb], true, CatchAllFor(w[s], [c]), [c], m);
    assert GET in map[GET := cb];
  }

  lemma NoCatchAll<R>(t: Trie<R>, p: Path)
    requires IsTrie(t) && p in t && forall q :: q in t ==> t[q].endpoints == map[]
    ensures CatchAllFor(t, p) == None
  {
    LineIn(t, p);
    assert DeepestCatchAll(t, Line(p)) == None;
  }

  // So does r, having no node for c. Once removing /c, which was never added to r, has
  // created that node, r answers NotFound.
  lemma {:induction false} EmptyNodeForgets<R>(w: World<R>, w': World<R>, rank: map<R, nat>, r: R, s: R,
                                               c: Text, cb: Callback, m: Method)
    requires Known(w, rank, r) && Known(w', rank, r) && Known(w, rank, s) && OnlyDiffers(w, w', r)
    requires Nesting(w, r, s, c, cb) && w'[r] == Apply(w[r], RemoveAll([c])) && m != GET
    ensures !Registered(w[r], [c])
    ensures Serve(w, rank, r, [c], m) == Outcome(InvalidMethod, None) && Serve(w', rank, r, [c], m) == NOT_FOUND
  {
    hide Known, Serve, Apply, Diverted, IsTrie, OnlyDiffers, Top, Sibling, Found, AnswersAbove, DeepestCatchAll;
    KnownTrie(w, rank, r);
    InnerAnswer(w, rank, r, s, c, cb, m);
    FirstPlace(w[r], c);
    var a := AnswersAbove(w, rank, r, [c], [c], m);
    assert [c][..0] == [] && [c][0..] == [c];
    assert a == [Outcome(InvalidMethod, None)];
    RemovalAnswers(w, w', rank, r, [c], [c], m);
    StoppedAbove(w, rank, r, [c], [c], m);
    NoCatchAll(w[r], []);
  }

  lemma SmallTries(outer: Trie<nat>, inner: Trie<nat>, c: Text)
    requires forall p :: p in outer <==> p == []
    requires forall p :: p in inner <==> p == [] || p == [c]
    ensures IsTrie(outer) && IsTrie(inner) && [c] !in outer
  {
    forall p | p in inner ensures HasParent(inner, p) {
      assert p != [] ==> Parent(p) == [];
    }
    forall p | p in outer ensures HasParent(outer, p) {
    }
  }

  lemma LitteredMounts<R>(t: Trie<R>, t': Trie<R>, path: Path)
    requires Littered(t, t', path)
    ensures IsTrie(t') && forall p :: p in t' && t'[p].mount.Nested? ==> p in t && t'[p] == t[p]
  {
  }

  // There are such routers: 0 with 1 mounted in it, before and after the call.
  lemma {:induction false} NestingExists(c: Text, cb: Callback)
    returns (w: World<nat>, w': World<nat>, rank: map<nat, nat>)
    ensures Known(w, rank, 0) && Known(w, rank, 1) && Known(w', rank, 0) && OnlyDiffers(w, w', 0)
    ensures Nesting(w, 0, 1, c, cb) && w'[0] == Apply(w[0], RemoveAll([c]))
  {
    hide Grow, Apply;
    var outer: Trie<nat> := map[[] := Node(Nested(1), map[])];
    var inner: Trie<nat> := map[[] := Bare(), [c] := Node(Unmounted, map[GET := cb])];
    w, rank := map[0 := outer, 1 := inner], map[0 := 1, 1 := 0];
    w' := map[0 := Apply(outer, RemoveAll([c])), 1 := inner];
    SmallTries(outer, inner, c);
    RemovalLitters(outer, [c]);
    hide Littered, IsTrie;
    LitteredMounts(outer, w'[0], [c]);
  }
}
