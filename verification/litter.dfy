// Removing a route that is not registered: remove_route of src/lib/router.cpp creates
// the nodes it does not find. What every request is answered once they are there.
module Litter {
  import opened Bytes
  import opened Routing
  import opened Dispatch

  // ----- What the call leaves behind -----

  // How much of the path there are nodes for.
  ghost function Found<R>(t: Trie<R>, path: Path): (n: nat)
    requires IsTrie(t)
    ensures n <= |path| && path[..n] in t
    ensures if path in t then n == |path| else n < |path| && path[..n + 1] !in t
    decreases |path|
  {
    if path in t then
      assert path[..|path|] == path;
      |path|
    else
      var n := Found(t, Parent(path));
      assert path[..n] == Parent(path)[..n];
      assert n == |path| - 1 ==> path[..n + 1] == path;
      assert n < |path| - 1 ==> path[..n + 1] == Parent(path)[..n + 1];
      n
  }

  // The node the first new one hangs off.
  ghost function Top<R>(t: Trie<R>, path: Path): (p: Path)
    requires IsTrie(t)
    ensures p in t
  {
    path[..Found(t, path)]
  }

  // t' has a node at every prefix of path, bare where t has none, and is otherwise t.
  ghost predicate Littered<R>(t: Trie<R>, t': Trie<R>, path: Path) {
    && IsTrie(t) && IsTrie(t') && path !in t
    && (forall p :: p in t ==> p in t' && t'[p] == t[p])
    && (forall i {:trigger path[..i]} :: 0 <= i <= |path| ==> path[..i] in t')
    && (forall p {:trigger t'[p]} {:trigger p in t'} :: p in t' && p !in t ==> p <= path && t'[p] == Bare())
  }

  lemma LitteredTries<R>(t: Trie<R>, t': Trie<R>, path: Path)
    requires Littered(t, t', path)
    ensures IsTrie(t) && IsTrie(t') && path !in t && path[..Found(t, path) + 1] in t'
    ensures forall p :: p in t ==> p in t' && t'[p] == t[p]
  {
  }

  lemma {:induction false} GrowNothing<R>(t: Trie<R>, path: Path)
    requires IsTrie(t) && path in t
    ensures Grow(t, path) == t
  {
    forall p | p in Prefixes(path) ensures p in t {
      var i :| 0 <= i <= |path| && p == path[..i];
      PrefixIn(t, path, i);
    }
  }

  lemma {:induction false} GrowLitters<R>(t: Trie<R>, path: Path)
    requires IsTrie(t) && path !in t
    ensures Littered(t, Grow(t, path), path) && Grow(t, path)[path := Bare()] == Grow(t, path)
  {
    assert path[..|path|] == path;
    GrowTrie(t, path);
  }

  lemma {:induction false} RemovalLitters<R>(t: Trie<R>, path: Path)
    requires IsTrie(t) && !Registered(t, path)
    ensures var t' := Apply(t, RemoveAll(path)); if path in t then t' == t else Littered(t, t', path)
  {
    hide Grow, Apply, Littered;
    Applied(t, RemoveAll(path));
    if path in t {
      GrowNothing(t, path);
    } else {
      GrowLitters(t, path);
    }
  }

  // The prefixes that have no node are the longer ones.
  lemma {:induction false} MissingPrefix<R>(t: Trie<R>, path: Path, i: nat)
    requires IsTrie(t) && i <= |path|
    ensures path[..i] in t <==> i <= Found(t, path)
  {
    var n := Found(t, path);
    if i <= n {
      PrefixIn(t, path[..n], i);
      assert path[..n][..i] == path[..i];
    } else {
      assert path[..i][..n + 1] == path[..n + 1];
      NothingBelow(t, path, n + 1, i);
    }
  }

  // ----- The walk afterwards -----

  // In t' the walk turns from node p, with component c, into the new nodes.
  ghost predicate Turns<R>(t: Trie<R>, path: Path, p: Path, c: Text)
    requires IsTrie(t) && path !in t
  {
    p == Top(t, path) && p + [c] !in t && path[Found(t, path)] in [c, WILDCARD]
  }

  lemma {:induction false} NewChild<R>(t: Trie<R>, t': Trie<R>, path: Path, p: Path, c: Text)
    requires Littered(t, t', path) && p in t
    ensures p + [c] in t' <==> p + [c] in t || (p == Top(t, path) && c == path[Found(t, path)])
    ensures p == Top(t, path) && c == path[Found(t, path)] ==> p + [c] == path[..Found(t, path) + 1]
  {
    var n := Found(t, path);
    assert path[..n + 1] == path[..n] + [path[n]];
    if p + [c] in t' && p + [c] !in t {
      assert path[..|p|] == p && path[..|p| + 1] == p + [c];
      MissingPrefix(t, path, |p|);
      MissingPrefix(t, path, |p| + 1);
    }
  }

  lemma {:induction false} NextAfter<R>(t: Trie<R>, t': Trie<R>, path: Path, p: Path, c: Text)
    requires Littered(t, t', path) && p in t
    ensures Next(t', p, c) == if Turns(t, path, p, c) then Some(path[..Found(t, path) + 1]) else Next(t, p, c)
  {
    NewChild(t, t', path, p, c);
    NewChild(t, t', path, p, WILDCARD);
    hide Littered, Found;
  }

  lemma {:induction false} NextAmongNew<R>(t: Trie<R>, t': Trie<R>, path: Path, k: nat, c: Text)
    requires Littered(t, t', path) && Found(t, path) < k <= |path|
    ensures Next(t', path[..k], c) ==
            if k < |path| && path[k] in [c, WILDCARD] then Some(path[..k + 1]) else None
  {
    var p := path[..k];
    MissingPrefix(t, path, k);
    assert k < |path| ==> path[..k + 1] == p + [path[k]];
    forall x: Text ensures p + [x] in t' <==> k < |path| && x == path[k] {
      if p + [x] in t' {
        assert Parent(p + [x]) == p;
        assert p + [x] in t ==> HasParent(t, p + [x]);
        assert (p + [x])[k] == x;
      }
    }
  }

  // rest leads along places.
  predicate Matches(places: Path, rest: Path) {
    |rest| <= |places| && forall i :: 0 <= i < |rest| ==> places[i] in [rest[i], WILDCARD]
  }

  lemma MatchesOn(places: Path, rest: Path)
    ensures Matches(places, rest) <==>
            rest == [] || (places != [] && places[0] in [rest[0], WILDCARD] && Matches(places[1..], rest[1..]))
  {
    if rest != [] && places != [] && places[0] in [rest[0], WILDCARD] && Matches(places[1..], rest[1..]) {
      forall i | 0 <= i < |rest| ensures places[i] in [rest[i], WILDCARD] {
        assert i > 0 ==> places[1..][i - 1] in [rest[1..][i - 1], WILDCARD];
      }
    }
  }

  lemma {:induction false} WalkAmongNew<R>(t: Trie<R>, t': Trie<R>, path: Path, k: nat, rest: Path)
    requires Littered(t, t', path) && Found(t, path) < k <= |path|
    ensures path[..k] in t'
    ensures var v := Walk(t', path[..k], rest);
            && (forall i :: 0 <= i < |v| ==> v[i] !in t && v[i] in t' && t'[v[i]] == Bare())
            && (|v| == |rest| + 1 <==> Matches(path[k..], rest))
    decreases |rest|
  {
    hide Next, Found, Littered, Matches, Walk, IsTrie;
    LitteredTries(t, t', path);
    NewPlace(t, t', path, k);
    WalkStep(t', path[..k], rest);
    MatchesOn(path[k..], rest);
    if rest != [] {
      NextAmongNew(t, t', path, k, rest[0]);
      if k < |path| && path[k] in [rest[0], WILDCARD] {
        assert path[k..][1..] == path[k + 1..];
        WalkAmongNew(t, t', path, k + 1, rest[1..]);
      }
    }
  }

  lemma NewPlace<R>(t: Trie<R>, t': Trie<R>, path: Path, k: nat)
    requires Littered(t, t', path) && Found(t, path) < k <= |path|
    ensures path[..k] in t' && path[..k] !in t && t'[path[..k]] == Bare()
  {
    MissingPrefix(t, path, k);
  }

  // A walk in t, from p on, that turns into the new nodes in t'.
  ghost predicate DivertedFrom<R>(t: Trie<R>, path: Path, p: Path, rest: Path)
    requires IsTrie(t) && path !in t && p in t
  {
    var v, k := Walk(t, p, rest), Found(t, path) - |p|;
    0 <= k < |rest| && k < |v| && Turns(t, path, v[k], rest[k])
  }

  lemma NextIsBelow<R>(t: Trie<R>, p: Path, c: Text)
    ensures Next(t, p, c).Some? ==> var q := Next(t, p, c).value; q in t && q != [] && Parent(q) == p
  {
  }

  lemma DivertedHere<R>(t: Trie<R>, path: Path, p: Path, rest: Path)
    requires IsTrie(t) && path !in t && p in t && rest != []
    ensures Turns(t, path, p, rest[0]) ==> Found(t, path) == |p| && DivertedFrom(t, path, p, rest)
    ensures !Turns(t, path, p, rest[0]) && Next(t, p, rest[0]) == None ==> !DivertedFrom(t, path, p, rest)
  {
    hide Next;
    assert Walk(t, p, rest)[0] == p;
  }

  lemma DivertedLater<R>(t: Trie<R>, path: Path, p: Path, rest: Path, q: Path)
    requires IsTrie(t) && path !in t && p in t && q in t && q != [] && Parent(q) == p
    requires rest != [] && !Turns(t, path, p, rest[0]) && Next(t, p, rest[0]) == Some(q)
    ensures DivertedFrom(t, path, p, rest) <==> DivertedFrom(t, path, q, rest[1..])
  {
    hide Next, Turns, Found;
    var v, k := Walk(t, p, rest), Found(t, path) - |p|;
    assert v == [p] + Walk(t, q, rest[1..]);
    if 0 < k < |rest| && k < |v| {
      assert v[k] == Walk(t, q, rest[1..])[k - 1] && rest[k] == rest[1..][k - 1];
    }
  }

  lemma JoinStep<A>(p: A, v: seq<A>, k: nat, u: seq<A>)
    requires k <= |v|
    ensures ([p] + v)[..k + 1] + u == [p] + (v[..k] + u)
  {
  }

  lemma {:induction false} WalkAfter<R>(t: Trie<R>, t': Trie<R>, path: Path, p: Path, rest: Path)
    requires Littered(t, t', path) && p in t
    ensures p in t' && path[..Found(t, path) + 1] in t'
    ensures var v, k := Walk(t, p, rest), Found(t, path) - |p|;
            Walk(t', p, rest) ==
            if DivertedFrom(t, path, p, rest)
            then v[..k + 1] + Walk(t', path[..Found(t, path) + 1], rest[k + 1..])
            else v
    decreases |rest|
  {
    hide Next, Walk, Found, Turns, DivertedFrom, Top, Littered, IsTrie;
    LitteredTries(t, t', path);
    WalkStep(t, p, rest);
    WalkStep(t', p, rest);
    if rest == [] {
      NotDivertedAtEnd(t, path, p);
    } else {
      NextAfter(t, t', path, p, rest[0]);
      NextIsBelow(t, p, rest[0]);
      DivertedHere(t, path, p, rest);
      if Turns(t, path, p, rest[0]) {
        assert Walk(t, p, rest)[..1] == [p];
      } else if Next(t, p, rest[0]).Some? {
        var q := Next(t, p, rest[0]).value;
        DivertedLater(t, path, p, rest, q);
        WalkAfter(t, t', path, q, rest[1..]);
        if DivertedFrom(t, path, p, rest) {
          var k := Found(t, path) - |p|;
          DivertedBounds(t, path, q, rest[1..]);
          assert rest[1..][k..] == rest[k + 1..];
          JoinStep(p, Walk(t, q, rest[1..]), k, Walk(t', path[..Found(t, path) + 1], rest[k + 1..]));
        }
      }
    }
  }

  lemma NotDivertedAtEnd<R>(t: Trie<R>, path: Path, p: Path)
    requires IsTrie(t) && path !in t && p in t
    ensures !DivertedFrom(t, path, p, [])
  {
  }

  lemma DivertedBounds<R>(t: Trie<R>, path: Path, p: Path, rest: Path)
    requires IsTrie(t) && path !in t && p in t && DivertedFrom(t, path, p, rest)
    ensures 0 <= Found(t, path) - |p| < |rest| && Found(t, path) - |p| < |Walk(t, p, rest)|
  {
  }

  // ----- Mounted routers answer as before -----

  // w' is w but for router r.
  ghost predicate OnlyDiffers<R>(w: World<R>, w': World<R>, r: R) {
    forall s :: s in w && s != r ==> s in w' && w'[s] == w[s]
  }

  lemma {:induction false} AsksAlike<R>(w: World<R>, w': World<R>, rank: map<R, nat>, r: R, s: R, p: Path,
                                        route: Path, m: Method)
    requires Known(w, rank, s) && Known(w', rank, s) && OnlyDiffers(w, w', r) && r in rank && rank[s] <= rank[r]
    requires p in w[s] && p in w'[s] && w'[s][p].mount == w[s][p].mount
    ensures Ask(w', rank, s, p, route, m) == Ask(w, rank, s, p, route, m)
    decreases rank[s], 0
  {
    hide Serve, IsTrie;
    match w[s][p].mount
    case Nested(u) => ServesAlike(w, w', rank, r, u, route, m);
    case _ =>
  }

  lemma {:induction false} ServesAlike<R>(w: World<R>, w': World<R>, rank: map<R, nat>, r: R, s: R,
                                          route: Path, m: Method)
    requires Known(w, rank, s) && Known(w', rank, s) && OnlyDiffers(w, w', r) && r in rank && rank[s] < rank[r]
    ensures Serve(w', rank, s, route, m) == Serve(w, rank, s, route, m)
    decreases rank[s], 2
  {
    hide Walk, Conclude, Ask;
    var v := Walk(w[s], [], route);
    AnswersAlike(w, w', rank, r, s, v, route, m);
  }

  lemma {:induction false} AnswersAlike<R>(w: World<R>, w': World<R>, rank: map<R, nat>, r: R, s: R, v: seq<Path>,
                                           route: Path, m: Method)
    requires Known(w, rank, s) && Known(w', rank, s) && OnlyDiffers(w, w', r) && r in rank && rank[s] <= rank[r]
    requires |v| <= |route| + 1
    requires forall i :: 0 <= i < |v| ==> v[i] in w[s] && v[i] in w'[s] && w'[s][v[i]].mount == w[s][v[i]].mount
    ensures Answers(w', rank, s, v, route, m) == Answers(w, rank, s, v, route, m)
    decreases rank[s], 1
  {
    hide Ask, IsTrie, Acyclic, OnlyDiffers;
    var a, a' := Answers(w, rank, s, v, route, m), Answers(w', rank, s, v, route, m);
    forall i | 0 <= i < |v| ensures a'[i] == a[i] {
      AsksAlike(w, w', rank, r, s, v[i], route[i..], m);
    }
  }

  // ----- What each request is answered afterwards -----

  // The places from the root down to p.
  function Line(p: Path): seq<Path> {
    PrefixesFrom(p, 0)
  }

  // The walk of route reaches the node the first new one hangs off, and turns there.
  ghost predicate Diverted<R>(t: Trie<R>, path: Path, route: Path)
    requires IsTrie(t)
  {
    path !in t && DivertedFrom(t, path, [], route)
  }

  lemma LineGrows(p: Path)
    requires p != []
    ensures Line(p) == Line(Parent(p)) + [p]
  {
    assert p[..|p|] == p;
    assert forall k :: 0 <= k < |p| ==> p[..k] == Parent(p)[..k];
  }

  // A walk is made of the prefixes of where it is.
  lemma {:induction false} WalkIsLine<R>(t: Trie<R>, route: Path, i: nat)
    requires [] in t && i < |Walk(t, [], route)|
    ensures |Walk(t, [], route)[i]| == i
    ensures Walk(t, [], route)[..i + 1] == Line(Walk(t, [], route)[i])
  {
    hide Walk, Next, Line, PrefixesFrom;
    var v := Walk(t, [], route);
    if i == 0 {
      assert v[..1] == [v[0]];
      RootLine();
    } else {
      WalkIsLine(t, route, i - 1);
      assert Next(t, v[i - 1], route[i - 1]) == Some(v[i - 1 + 1]);
      NextIsBelow(t, v[i - 1], route[i - 1]);
      LineGrows(v[i]);
      assert v[..i + 1] == v[..i - 1 + 1] + [v[i]];
    }
  }

  lemma RootLine()
    ensures Line([]) == [[]]
  {
    var root: Path := [];
    assert root[..0] == root;
  }

  lemma {:induction false} LineIn<R>(t: Trie<R>, p: Path)
    requires IsTrie(t) && p in t
    ensures forall i :: 0 <= i < |Line(p)| ==> Line(p)[i] in t
  {
    forall i | 0 <= i < |Line(p)| ensures Line(p)[i] in t {
      PrefixIn(t, p, i);
    }
  }

  lemma {:induction false} TopLine<R>(t: Trie<R>, path: Path)
    requires IsTrie(t)
    ensures var v := Line(Top(t, path));
            |v| == Found(t, path) + 1 && forall i :: 0 <= i < |v| ==> v[i] == path[..i] && v[i] in t
  {
    LineIn(t, Top(t, path));
    assert forall i :: 0 <= i <= Found(t, path) ==> Top(t, path)[..i] == path[..i];
  }

  lemma DivertedTop<R>(t: Trie<R>, path: Path, route: Path)
    requires IsTrie(t) && Diverted(t, path, route)
    ensures var n := Found(t, path);
            path !in t && n < |route| && n < |Walk(t, [], route)| && Walk(t, [], route)[n] == Top(t, path)
            && Turns(t, path, Top(t, path), route[n])
  {
  }

  // What the mounts from the root down to the last old node answer, asked in turn.
  ghost function AnswersAbove<R>(w: World<R>, rank: map<R, nat>, r: R, path: Path, route: Path, m: Method)
    : (a: seq<Outcome>)
    requires Known(w, rank, r) && Diverted(w[r], path, route)
    ensures var n := Found(w[r], path);
            |a| == n + 1 && forall i :: 0 <= i <= n ==>
              path[..i] in w[r] && i <= |route| && a[i] == Ask(w, rank, r, path[..i], route[i..], m) && Fair(a[i])
  {
    TopLine(w[r], path);
    DivertedTop(w[r], path, route);
    Answers(w, rank, r, Line(Top(w[r], path)), route, m)
  }

  // The recursive catch-all in force at p: the deepest one from the root down to p.
  ghost function CatchAllFor<R>(t: Trie<R>, p: Path): Option<Callback>
    requires IsTrie(t) && p in t
  {
    LineIn(t, p);
    DeepestCatchAll(t, Line(p))
  }

  // The answer of the first mount above that handles the request; otherwise that of a
  // walk that ends among empty nodes, at one of them or short of any.
  ghost function Diversion<R>(w: World<R>, rank: map<R, nat>, r: R, path: Path, route: Path, m: Method): Outcome
    requires Known(w, rank, r) && Diverted(w[r], path, route)
  {
    var n, a := Found(w[r], path), AnswersAbove(w, rank, r, path, route, m);
    match FirstHandled(a)
    case Some(i) => a[i]
    case None =>
      Settle(map[], Matches(path[n + 1..], route[n + 1..]), LastAnswer(a), CatchAllFor(w[r], Top(w[r], path)), route, m)
  }

  // Answers of nothing mounted change nothing.
  lemma {:induction false} QuietEnd(a: seq<Outcome>, b: seq<Outcome>)
    requires forall i :: 0 <= i < |b| ==> b[i] == NOT_FOUND
    ensures FirstHandled(a + b) == FirstHandled(a) && LastAnswer(a + b) == LastAnswer(a)
    decreases |b|
  {
    if b == [] {
      assert a + b == a;
    } else {
      var n := |b| - 1;
      QuietEnd(a, b[..n]);
      assert (a + b)[..|a| + n] == a + b[..n] && (a + b)[|a| + n] == NOT_FOUND;
      assert a + b == (a + b[..n]) + [NOT_FOUND];
      FirstHandledExtend(a + b[..n], NOT_FOUND);
    }
  }

  lemma {:induction false} FirstHandledExtend(a: seq<Outcome>, o: Outcome)
    requires o.result != Handled
    ensures FirstHandled(a + [o]) == FirstHandled(a)
  {
    if a != [] {
      FirstHandledExtend(a[1..], o);
      assert (a + [o])[1..] == a[1..] + [o];
    }
  }

  lemma DeepestWith<R>(t: Trie<R>, v: seq<Path>, p: Path)
    requires p in t && forall i :: 0 <= i < |v| ==> v[i] in t
    ensures DeepestCatchAll(t, v + [p]) == CatchAllAt(t[p], DeepestCatchAll(t, v))
  {
    assert (v + [p])[..|v|] == v;
  }

  lemma {:induction false} DeepestAlike<R>(t: Trie<R>, t': Trie<R>, v: seq<Path>)
    requires forall i :: 0 <= i < |v| ==> v[i] in t && v[i] in t' && t'[v[i]] == t[v[i]]
    ensures DeepestCatchAll(t', v) == DeepestCatchAll(t, v)
  {
    if v != [] {
      DeepestAlike(t, t', v[..|v| - 1]);
    }
  }

  // Nor do nodes without endpoints.
  lemma {:induction false} BareTail<R>(t: Trie<R>, v: seq<Path>, u: seq<Path>)
    requires forall i :: 0 <= i < |v| ==> v[i] in t
    requires forall i :: 0 <= i < |u| ==> u[i] in t && t[u[i]] == Bare()
    ensures DeepestCatchAll(t, v + u) == DeepestCatchAll(t, v)
    decreases |u|
  {
    hide DeepestCatchAll;
    if u == [] {
      assert v + u == v;
    } else {
      var n := |u| - 1;
      BareTail(t, v, u[..n]);
      assert v + u == (v + u[..n]) + [u[n]];
      DeepestWith(t, v + u[..n], u[n]);
    }
  }

  lemma {:induction false} BareEnd<R>(t: Trie<R>, t': Trie<R>, v: seq<Path>, u: seq<Path>)
    requires forall i :: 0 <= i < |v| ==> v[i] in t && v[i] in t' && t'[v[i]] == t[v[i]]
    requires forall i :: 0 <= i < |u| ==> u[i] in t' && t'[u[i]] == Bare()
    ensures forall i :: 0 <= i < |v + u| ==> (v + u)[i] in t'
    ensures DeepestCatchAll(t', v + u) == DeepestCatchAll(t, v)
  {
    hide DeepestCatchAll;
    DeepestAlike(t, t', v);
    BareTail(t', v, u);
  }

  // The parts of the walk of a diverted request afterwards: old nodes, then new ones.
  lemma {:induction false} DivertedWalk<R>(t: Trie<R>, t': Trie<R>, path: Path, route: Path) returns (tail: seq<Path>)
    requires Littered(t, t', path) && Diverted(t, path, route)
    ensures Walk(t', [], route) == Line(Top(t, path)) + tail && tail != []
    ensures forall i :: 0 <= i < |tail| ==> tail[i] in t' && t'[tail[i]] == Bare()
    ensures var n := Found(t, path);
            n < |route| && (|Line(Top(t, path)) + tail| == |route| + 1 <==> Matches(path[n + 1..], route[n + 1..]))
  {
    hide Walk, Matches, Line, Found, Littered, IsTrie;
    LitteredTries(t, t', path);
    var n := Found(t, path);
    RootIn(t);
    DivertedBounds(t, path, [], route);
    DivertedTop(t, path, route);
    WalkAfter(t, t', path, [], route);
    WalkIsLine(t, route, n);
    WalkAmongNew(t, t', path, n + 1, route[n + 1..]);
    tail := Walk(t', path[..n + 1], route[n + 1..]);
  }

  lemma RootIn<R>(t: Trie<R>)
    requires IsTrie(t)
    ensures [] in t
  {
  }

  lemma BareAsk<R>(w: World<R>, rank: map<R, nat>, r: R, p: Path, route: Path, m: Method)
    requires Known(w, rank, r) && p in w[r] && w[r][p].mount.Unmounted?
    ensures Ask(w, rank, r, p, route, m) == NOT_FOUND
  {
  }

  // The mounts on the old nodes answer as before, and there are none on the new ones.
  lemma {:induction false} DivertedParts<R>(w: World<R>, w': World<R>, rank: map<R, nat>, r: R, path: Path,
                                            route: Path, m: Method, tail: seq<Path>)
    returns (b: seq<Outcome>)
    requires Known(w, rank, r) && Known(w', rank, r) && OnlyDiffers(w, w', r)
    requires Littered(w[r], w'[r], path) && Diverted(w[r], path, route)
    requires Walk(w'[r], [], route) == Line(Top(w[r], path)) + tail
    requires forall i :: 0 <= i < |tail| ==> tail[i] in w'[r] && w'[r][tail[i]] == Bare()
    ensures |Line(Top(w[r], path)) + tail| <= |route| + 1
    ensures forall p :: p in Line(Top(w[r], path)) + tail ==> p in w'[r]
    ensures Answers(w', rank, r, Line(Top(w[r], path)) + tail, route, m)
            == AnswersAbove(w, rank, r, path, route, m) + b
    ensures forall i :: 0 <= i < |b| ==> b[i] == NOT_FOUND
  {
    hide Known, IsTrie, Littered, Walk, Matches, Found, Diverted, Answers, Ask, OnlyDiffers, AnswersAbove;
    KnownTrie(w, rank, r);
    KnownTrie(w', rank, r);
    LitteredTries(w[r], w'[r], path);
    LineIn(w[r], Top(w[r], path));
    DivertedTop(w[r], path, route);
    var t, t' := w[r], w'[r];
    var head := Line(Top(t, path));
    var a, a' := AnswersAbove(w, rank, r, path, route, m), Answers(w', rank, r, head + tail, route, m);
    b := a'[|head|..];
    forall i | 0 <= i < |head| ensures a'[i] == a[i] {
      assert (head + tail)[i] == path[..i];
      AsksAlike(w, w', rank, r, r, path[..i], route[i..], m);
    }
    forall i | |head| <= i < |a'| ensures a'[i] == NOT_FOUND {
      assert (head + tail)[i] == tail[i - |head|];
      BareAsk(w', rank, r, tail[i - |head|], route[i..], m);
    }
    assert a' == a + b;
  }

  // A walk that ends among bare nodes is concluded from what is above them.
  lemma {:induction false} ConcludeAmongNew<R>(t: Trie<R>, t': Trie<R>, head: seq<Path>, tail: seq<Path>,
                                               a: seq<Outcome>, b: seq<Outcome>, route: Path, m: Method)
    requires forall i :: 0 <= i < |head| ==> head[i] in t && head[i] in t' && t'[head[i]] == t[head[i]]
    requires tail != [] && forall i :: 0 <= i < |tail| ==> tail[i] in t' && t'[tail[i]] == Bare()
    requires forall i :: 0 <= i < |a| ==> Fair(a[i])
    requires forall i :: 0 <= i < |b| ==> b[i] == NOT_FOUND
    ensures forall i :: 0 <= i < |head + tail| ==> (head + tail)[i] in t'
    ensures forall i :: 0 <= i < |a + b| ==> Fair((a + b)[i])
    ensures Conclude(t', head + tail, a + b, route, m) ==
            match FirstHandled(a)
            case Some(i) => a[i]
            case None => Settle(map[], |head + tail| == |route| + 1, LastAnswer(a), DeepestCatchAll(t, head), route, m)
  {
    hide FirstHandled, LastAnswer, DeepestCatchAll, Settle;
    QuietEnd(a, b);
    BareEnd(t, t', head, tail);
    assert (head + tail)[|head + tail| - 1] == tail[|tail| - 1];
  }

  lemma {:induction false} DivertedAnswers<R>(w: World<R>, w': World<R>, rank: map<R, nat>, r: R, path: Path,
                                              route: Path, m: Method)
    requires Known(w, rank, r) && Known(w', rank, r) && OnlyDiffers(w, w', r)
    requires Littered(w[r], w'[r], path) && Diverted(w[r], path, route)
    ensures Serve(w', rank, r, route, m) == Diversion(w, rank, r, path, route, m)
  {
    hide Known, Walk, Matches, Line, Found, Littered, Diverted, Answers, Ask, Settle, Conclude, Fair;
    hide AnswersAbove, OnlyDiffers, Top, FirstHandled, LastAnswer, DeepestCatchAll, IsTrie;
    KnownTrie(w, rank, r);
    KnownTrie(w', rank, r);
    var t, t' := w[r], w'[r];
    var head := Line(Top(t, path));
    var tail := DivertedWalk(t, t', path, route);
    var a := AnswersAbove(w, rank, r, path, route, m);
    var b := DivertedParts(w, w', rank, r, path, route, m, tail);
    LineIn(t, Top(t, path));
    LitteredTries(t, t', path);
    ConcludeAmongNew(t, t', head, tail, a, b, route, m);
  }

  lemma {:induction false} UndivertedAnswers<R>(w: World<R>, w': World<R>, rank: map<R, nat>, r: R,
                                                route: Path, m: Method)
    requires Known(w, rank, r) && Known(w', rank, r) && OnlyDiffers(w, w', r)
    requires forall p :: p in w[r] ==> p in w'[r] && w'[r][p] == w[r][p]
    requires [] in w[r] && Walk(w'[r], [], route) == Walk(w[r], [], route)
    ensures Serve(w', rank, r, route, m) == Serve(w, rank, r, route, m)
  {
    hide Walk, Answers, FirstHandled, LastAnswer, DeepestCatchAll, Settle, OnlyDiffers;
    var v := Walk(w[r], [], route);
    AnswersAlike(w, w', rank, r, r, v, route, m);
    BareEnd(w[r], w'[r], v, []);
    assert v + [] == v;
  }

  // Afterwards every request is answered as before, but for those that are diverted into
  // the new nodes, whatever is mounted where.
  lemma {:induction false} RemovalAnswers<R>(w: World<R>, w': World<R>, rank: map<R, nat>, r: R, path: Path,
                                             route: Path, m: Method)
    requires Known(w, rank, r) && Known(w', rank, r) && OnlyDiffers(w, w', r)
    requires !Registered(w[r], path) && w'[r] == Apply(w[r], RemoveAll(path))
    ensures Serve(w', rank, r, route, m) ==
            if Diverted(w[r], path, route) then Diversion(w, rank, r, path, route, m) else Serve(w, rank, r, route, m)
  {
    hide Serve, Diversion, Apply, Walk, Littered, OnlyDiffers, Registered;
    RemovalLitters(w[r], path);
    RootIn(w[r]);
    if Diverted(w[r], path, route) {
      DivertedAnswers(w, w', rank, r, path, route, m);
    } else {
      if path !in w[r] {
        LitteredTries(w[r], w'[r], path);
        WalkAfter(w[r], w'[r], path, [], route);
      }
      UndivertedAnswers(w, w', rank, r, route, m);
    }
  }
}
