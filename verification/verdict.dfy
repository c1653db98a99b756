// What a router answers, case by case: every request to every world of routers falls
// under one of these lemmas.
module Verdicts {
  import opened Bytes
  import opened Routing
  import opened Dispatch

  // The i-th mount on the walk, asked for what is left of the route there.
  ghost function MountAnswer<R>(w: World<R>, rank: map<R, nat>, r: R, route: Path, m: Method, i: nat): Outcome
    requires Known(w, rank, r) && i < |Walk(w[r], [], route)|
  {
    Ask(w, rank, r, Walk(w[r], [], route)[i], route[i..], m)
  }

  ghost predicate NoneHandled<R>(w: World<R>, rank: map<R, nat>, r: R, route: Path, m: Method)
    requires Known(w, rank, r)
  {
    forall i :: 0 <= i < |Walk(w[r], [], route)| ==> MountAnswer(w, rank, r, route, m, i).result != Handled
  }

  ghost predicate NoneFound<R>(w: World<R>, rank: map<R, nat>, r: R, route: Path, m: Method)
    requires Known(w, rank, r)
  {
    forall i :: 0 <= i < |Walk(w[r], [], route)| ==> MountAnswer(w, rank, r, route, m, i).result == NotFound
  }

  // The walk uses up all of the route.
  ghost predicate Arrives<R>(w: World<R>, rank: map<R, nat>, r: R, route: Path)
    requires Known(w, rank, r)
  {
    |Walk(w[r], [], route)| == |route| + 1
  }

  // The endpoints of the last node of the walk.
  ghost function LastEndpoints<R>(w: World<R>, rank: map<R, nat>, r: R, route: Path): Endpoints
    requires Known(w, rank, r)
  {
    var v := Walk(w[r], [], route);
    w[r][v[|v| - 1]].endpoints
  }

  // ----- The edges taken -----

  // The literal edge, else the one for "*", else the walk stops.
  lemma EdgeTaken<R>(t: Trie<R>, p: Path, c: Text)
    ensures p + [c] in t ==> Next(t, p, c) == Some(p + [c])
    ensures p + [c] !in t && p + [[0x2a]] in t ==> Next(t, p, c) == Some(p + [[0x2a]])
    ensures p + [c] !in t && p + [[0x2a]] !in t ==> Next(t, p, c) == None
  {
  }

  // ----- What is mounted on a node -----

  lemma MountsAnswer<R>(w: World<R>, rank: map<R, nat>, r: R, p: Path, rest: Path, m: Method)
    requires Known(w, rank, r) && p in w[r]
    ensures var mount, o := w[r][p].mount, Ask(w, rank, r, p, rest, m);
            && (mount.Unmounted? ==> o == Outcome(NotFound, None))
            && (mount.Nested? ==> Known(w, rank, mount.router) && o == Serve(w, rank, mount.router, rest, m))
            && (mount.Foreign? ==>
                 && o.result == mount.answer(rest, m)
                 && o.served == if o.result == Handled then Some(Served(ForeignRouter(mount.id), rest)) else None)
  {
  }

  // ----- A mount handles the request -----

  lemma {:induction false} MountHandles<R>(w: World<R>, rank: map<R, nat>, r: R, route: Path, m: Method, i: nat)
    requires Known(w, rank, r) && i < |Walk(w[r], [], route)|
    requires MountAnswer(w, rank, r, route, m, i).result == Handled
    requires forall k :: 0 <= k < i ==> MountAnswer(w, rank, r, route, m, k).result != Handled
    ensures Serve(w, rank, r, route, m) == MountAnswer(w, rank, r, route, m, i)
  {
    hide Walk, Ask, FirstHandled, LastAnswer, DeepestCatchAll, Settle;
    var v := Walk(w[r], [], route);
    var a := Answers(w, rank, r, v, route, m);
    forall k | 0 <= k <= i ensures a[k] == MountAnswer(w, rank, r, route, m, k) {
    }
    FirstIs(a, i);
  }

  // ----- None does -----

  lemma {:induction false} Unhandled<R>(w: World<R>, rank: map<R, nat>, r: R, route: Path, m: Method)
    returns (a: seq<Outcome>)
    requires Known(w, rank, r) && NoneHandled(w, rank, r, route, m)
    ensures |a| == |Walk(w[r], [], route)| && LastAnswer(a) != Handled
    ensures forall i :: 0 <= i < |a| ==> a[i] == MountAnswer(w, rank, r, route, m, i)
    ensures Serve(w, rank, r, route, m) ==
            Settle(LastEndpoints(w, rank, r, route), Arrives(w, rank, r, route), LastAnswer(a),
                   DeepestCatchAll(w[r], Walk(w[r], [], route)), route, m)
  {
    hide Walk, Ask, FirstHandled, LastAnswer, DeepestCatchAll, Settle;
    a := Answers(w, rank, r, Walk(w[r], [], route), route, m);
    assert forall i :: 0 <= i < |a| ==> a[i] == MountAnswer(w, rank, r, route, m, i);
  }

  // The walk stops short, and some mount says more than NotFound: the last such answer
  // is the router's, and nothing runs, whatever catch-alls are passed.
  lemma {:induction false} LastMountHasTheSay<R>(w: World<R>, rank: map<R, nat>, r: R, route: Path, m: Method, i: nat)
    requires Known(w, rank, r) && NoneHandled(w, rank, r, route, m) && !Arrives(w, rank, r, route)
    requires i < |Walk(w[r], [], route)| && MountAnswer(w, rank, r, route, m, i).result != NotFound
    requires forall k :: i < k < |Walk(w[r], [], route)| ==> MountAnswer(w, rank, r, route, m, k).result == NotFound
    ensures Serve(w, rank, r, route, m) == Outcome(MountAnswer(w, rank, r, route, m, i).result, None)
  {
    hide Known, Walk, MountAnswer, NoneHandled, LastAnswer, DeepestCatchAll, Serve, LastEndpoints, Arrives;
    KnownTrie(w, rank, r);
    var a := Unhandled(w, rank, r, route, m);
    LastIs(a, i);
  }

  lemma LastIs(a: seq<Outcome>, i: nat)
    requires i < |a| && a[i].result != NotFound && forall k :: i < k < |a| ==> a[k].result == NotFound
    ensures LastAnswer(a) == a[i].result
  {
  }

  // The walk stops short and all mounts say NotFound, or it ends at a node without
  // endpoints, whatever the mounts say.
  ghost predicate Undecided<R>(w: World<R>, rank: map<R, nat>, r: R, route: Path, m: Method)
    requires Known(w, rank, r)
  {
    && NoneHandled(w, rank, r, route, m)
    && if Arrives(w, rank, r, route) then LastEndpoints(w, rank, r, route) == map[] else NoneFound(w, rank, r, route, m)
  }

  // Then the deepest recursive catch-all runs.
  lemma {:induction false} CatchAllRuns<R>(w: World<R>, rank: map<R, nat>, r: R, route: Path, m: Method, i: nat)
    requires Known(w, rank, r) && Undecided(w, rank, r, route, m)
    requires var v := Walk(w[r], [], route);
             && i < |v| && CatchAllRecursive in w[r][v[i]].endpoints
             && forall k :: i < k < |v| ==> CatchAllRecursive !in w[r][v[k]].endpoints
    ensures var cb := w[r][Walk(w[r], [], route)[i]].endpoints[CatchAllRecursive];
            Serve(w, rank, r, route, m) == Outcome(Handled, Some(Served(Callback(cb), route)))
  {
    hide Known, Walk, MountAnswer, NoneHandled, LastAnswer, DeepestCatchAll, Serve, LastEndpoints, Arrives, IsTrie;
    KnownTrie(w, rank, r);
    var a := Unhandled(w, rank, r, route, m);
    DeepestIs(w[r], Walk(w[r], [], route), i);
  }

  lemma {:induction false} DeepestIs<R>(t: Trie<R>, v: seq<Path>, i: nat)
    requires i < |v| && forall k :: 0 <= k < |v| ==> v[k] in t
    requires CatchAllRecursive in t[v[i]].endpoints
    requires forall k :: i < k < |v| ==> CatchAllRecursive !in t[v[k]].endpoints
    ensures DeepestCatchAll(t, v) == Some(t[v[i]].endpoints[CatchAllRecursive])
  {
    if i < |v| - 1 {
      DeepestIs(t, v[..|v| - 1], i);
    }
  }

  // Or, if there is none, nothing does.
  lemma {:induction false} NothingRuns<R>(w: World<R>, rank: map<R, nat>, r: R, route: Path, m: Method)
    requires Known(w, rank, r) && Undecided(w, rank, r, route, m)
    requires var v := Walk(w[r], [], route);
             forall k :: 0 <= k < |v| ==> CatchAllRecursive !in w[r][v[k]].endpoints
    ensures Serve(w, rank, r, route, m) == Outcome(NotFound, None)
  {
    hide Known, Walk, MountAnswer, NoneHandled, LastAnswer, DeepestCatchAll, Serve, LastEndpoints, Arrives, IsTrie;
    KnownTrie(w, rank, r);
    var a := Unhandled(w, rank, r, route, m);
  }

  // The walk ends at a node with an endpoint for the method, or one of the catch-alls: it
  // runs, whatever the mounts say and whatever catch-alls are above.
  lemma {:induction false} EndpointRuns<R>(w: World<R>, rank: map<R, nat>, r: R, route: Path, m: Method)
    requires Known(w, rank, r) && NoneHandled(w, rank, r, route, m) && Arrives(w, rank, r, route)
    ensures var e := LastEndpoints(w, rank, r, route);
            var o := Serve(w, rank, r, route, m);
            && (m in e ==> o == Outcome(Handled, Some(Served(Callback(e[m]), route))))
            && (m !in e && CatchAllHere in e ==> o == Outcome(Handled, Some(Served(Callback(e[CatchAllHere]), route))))
            && (m !in e && CatchAllHere !in e && CatchAllRecursive in e ==>
                 o == Outcome(Handled, Some(Served(Callback(e[CatchAllRecursive]), route))))
  {
    hide Known, Walk, MountAnswer, NoneHandled, LastAnswer, DeepestCatchAll, Serve, LastEndpoints, Arrives, IsTrie;
    KnownTrie(w, rank, r);
    var a := Unhandled(w, rank, r, route, m);
  }

  // It has endpoints, but none of these: nothing runs.
  lemma {:induction false} MethodRefused<R>(w: World<R>, rank: map<R, nat>, r: R, route: Path, m: Method)
    requires Known(w, rank, r) && NoneHandled(w, rank, r, route, m) && Arrives(w, rank, r, route)
    requires var e := LastEndpoints(w, rank, r, route);
             e != map[] && m !in e && CatchAllHere !in e && CatchAllRecursive !in e
    ensures Serve(w, rank, r, route, m) == Outcome(InvalidMethod, None)
  {
    hide Known, Walk, MountAnswer, NoneHandled, LastAnswer, DeepestCatchAll, Serve, LastEndpoints, Arrives, IsTrie;
    KnownTrie(w, rank, r);
    var a := Unhandled(w, rank, r, route, m);
  }
}
