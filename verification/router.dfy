// The routers of src/lib/router.cpp: tries of nodes keyed by symbols, built and
// walked in place.
module Routers {
  import opened Bytes
  import opened Paths
  import opened Symbols
  import opened Routing
  import opened Requests

  function Last(p: Path): Text
    requires p != []
  {
    p[|p| - 1]
  }

  // ----- The layout of a router: what is at each place -----

  // The node there, the place each of its edges leads to, and what it holds.
  datatype Place = Place(node: SubRoute, edges: map<Id, Path>, value: Node<Router>)

  type Layout = map<Path, Place>

  ghost function TrieOf(layout: Layout): Trie<Router> {
    map p | p in layout :: layout[p].value
  }

  // Symbol-keyed edges and string-keyed places agree.
  ghost predicate WellShaped(layout: Layout, table: Table) {
    && Consistent(table) && [] in layout
    && (forall p {:trigger Hangs(layout, table, p)} :: p in layout ==> Hangs(layout, table, p))
    && (forall p, id {:trigger Leads(layout, table, p, id)} ::
          p in layout && id in layout[p].edges ==> Leads(layout, table, p, id))
  }

  // A place other than the root hangs off its parent by the symbol of its last
  // component.
  ghost predicate Hangs(layout: Layout, table: Table, p: Path) {
    p != [] ==>
      && Parent(p) in layout && Last(p) in table.index
      && table.index[Last(p)] in layout[Parent(p)].edges
  }

  // An edge leads to the place its symbol's string names, and its symbol is not 0.
  ghost predicate Leads(layout: Layout, table: Table, p: Path, id: Id)
    requires p in layout && id in layout[p].edges
  {
    && 0 < id as int < |table.strings|
    && layout[p].edges[id] == p + [table.strings[id]] && layout[p].edges[id] in layout
  }

  // Looking a component up through its symbol finds an edge exactly when one was
  // added for that string: strings never interned, and the empty string, get id 0,
  // and no edge has that id.
  lemma Lookup(layout: Layout, table: Table, p: Path, c: Text)
    requires WellShaped(layout, table) && p in layout
    ensures var id := if c in table.index then table.index[c] else 0;
            && (id in layout[p].edges <==> p + [c] in layout)
            && (id in layout[p].edges ==> layout[p].edges[id] == p + [c])
  {
    var id := if c in table.index then table.index[c] else 0;
    assert Parent(p + [c]) == p && Last(p + [c]) == c;
    if p + [c] in layout {
      assert Hangs(layout, table, p + [c]);
    }
    if id in layout[p].edges {
      assert Leads(layout, table, p, id);
    }
  }

  // layout with an edge from p to a bare node at the new place q.
  ghost function Extended(layout: Layout, p: Path, id: Id, q: Path, child: SubRoute): Layout
    requires p in layout
  {
    layout[p := layout[p].(edges := layout[p].edges[id := q])][q := Place(child, map[], Bare())]
  }

  lemma HangsExtended(layout: Layout, table: Table, p: Path, id: Id, q: Path, child: SubRoute, k: Path)
    requires p in layout && q !in layout && q != [] && Parent(q) == p
    requires Last(q) in table.index && table.index[Last(q)] == id
    requires k == q || (k in layout && Hangs(layout, table, k))
    ensures Hangs(Extended(layout, p, id, q, child), table, k)
  {
  }

  lemma LeadsExtended(layout: Layout, table: Table, p: Path, id: Id, q: Path, child: SubRoute, k: Path, i: Id)
    requires p in layout && q !in layout && q != p
    requires 0 < id as int < |table.strings| && q == p + [table.strings[id]]
    requires (k == p && i == id) || (k in layout && k != q && i in layout[k].edges && Leads(layout, table, k, i))
    ensures var layout' := Extended(layout, p, id, q, child);
            k in layout' && i in layout'[k].edges && Leads(layout', table, k, i)
  {
  }

  // A new place under a symbol that had no edge at p.
  lemma LayoutExtended(layout: Layout, table: Table, p: Path, c: Text, child: SubRoute)
    requires WellShaped(layout, table) && p in layout && c in table.index && c != []
    requires p + [c] !in layout
    ensures WellShaped(Extended(layout, p, table.index[c], p + [c], child), table)
  {
    var id := table.index[c];
    var q := p + [c];
    var layout' := Extended(layout, p, id, q, child);
    assert Parent(q) == p && Last(q) == c && q != p;
    assert id > 0 && table.strings[id] == c by {
      assert table.strings[0] == [];
    }
    hide Hangs, Leads, Consistent;
    forall k | k in layout' ensures Hangs(layout', table, k) {
      HangsExtended(layout, table, p, id, q, child, k);
    }
    forall k, i | k in layout' && i in layout'[k].edges ensures Leads(layout', table, k, i) {
      LeadsExtended(layout, table, p, id, q, child, k, i);
    }
  }

  lemma TrieExtended(layout: Layout, p: Path, id: Id, q: Path, child: SubRoute)
    requires p in layout && q !in layout
    ensures TrieOf(Extended(layout, p, id, q, child)) == TrieOf(layout)[q := Bare()]
  {
  }

  ghost function Revalued(layout: Layout, p: Path, value: Node<Router>): Layout
    requires p in layout
  {
    layout[p := layout[p].(value := value)]
  }

  lemma TrieRevalued(layout: Layout, p: Path, value: Node<Router>)
    requires p in layout
    ensures p in TrieOf(layout) && TrieOf(Revalued(layout, p, value)) == TrieOf(layout)[p := value]
  {
  }

  // What a node holds is no concern of the layout's shape.
  lemma RevaluedFits(layout: Layout, table: Table, p: Path, value: Node<Router>)
    requires WellShaped(layout, table) && p in layout
    ensures WellShaped(Revalued(layout, p, value), table)
  {
    var layout' := Revalued(layout, p, value);
    assert forall k :: k in layout' <==> k in layout;
    assert forall k :: k in layout ==> layout'[k].edges == layout[k].edges;
    hide Consistent, Revalued;
    forall k | k in layout' ensures Hangs(layout', table, k) {
      assert Hangs(layout, table, k);
    }
    hide Hangs;
    forall k, i | k in layout' && i in layout'[k].edges ensures Leads(layout', table, k, i) {
      assert Leads(layout, table, k, i);
    }
  }

  // More strings in the table change nothing.
  lemma LayoutStable(layout: Layout, table: Table, table': Table)
    requires WellShaped(layout, table) && Consistent(table') && Extends(table', table)
    ensures WellShaped(layout, table')
  {
    forall p | p in layout ensures Hangs(layout, table', p) {
      assert Hangs(layout, table, p);
    }
    forall p, id | p in layout && id in layout[p].edges ensures Leads(layout, table', p, id) {
      assert Leads(layout, table, p, id);
    }
  }

  // ----- Nodes and places -----

  // A node n at place k with these edges and this content is what the layout says.
  ghost predicate Fits(layout: Layout, k: Path, n: SubRoute, routes: map<Id, SubRoute>, value: Node<Router>) {
    k in layout && layout[k].node == n && layout[k].value == value
    && (forall id {:trigger id in routes} :: id in routes <==> id in layout[k].edges)
    && (forall id {:trigger routes[id]} :: id in routes ==>
          layout[k].edges[id] in layout && routes[id] == layout[layout[k].edges[id]].node)
  }

  lemma FitsExtended(layout: Layout, p: Path, id: Id, q: Path, child: SubRoute,
                     k: Path, n: SubRoute, routes: map<Id, SubRoute>, value: Node<Router>)
    requires p in layout && q !in layout && Fits(layout, k, n, routes, value)
    ensures k in layout && layout[k].node == n
    ensures Fits(Extended(layout, p, id, q, child), k, n, if k == p then routes[id := child] else routes, value)
  {
  }

  lemma ExtendedPlaces(layout: Layout, p: Path, id: Id, q: Path, child: SubRoute)
    requires p in layout && q !in layout
    ensures var layout' := Extended(layout, p, id, q, child);
            && (forall k :: k in layout' <==> k in layout || k == q)
            && (forall k {:trigger layout'[k].node} :: k in layout ==> layout'[k].node == layout[k].node)
            && Fits(layout', q, child, map[], Bare()) && layout'[q].node == child
  {
  }

  ghost predicate Holds(layout: Layout, n: SubRoute)
    reads n
  {
    Fits(layout, n.path, n, n.routes, Node(n.router, n.endpoints))
  }

  // How far a request has come: what ran on behalf of it, the full and the relative
  // route it shows, and whether they have been parsed.
  datatype Progress = At(served: seq<Served>, full: Path, route: Path, parsed: bool) {
    // After the answer o: what ran is logged, and the relative route is what that
    // saw, or as before if nothing ran.
    function After(o: Outcome): Progress {
      match o.served
      case None => At(served, full, route, true)
      case Some(s) => At(served + [s], full, s.seen, true)
    }
  }

  // Parsing the route first makes no difference, and an answer that did not handle
  // the request leaves only that trace.
  lemma AfterParsing(before: Progress, o: Outcome)
    requires Fair(o)
    ensures before.(parsed := true).After(o) == before.After(o)
    ensures o.result != Handled ==> before.After(o) == before.(parsed := true)
  {
  }

  class RequestContext {
    const request: Request
    // What ran on behalf of this request, with the relative route it saw.
    var served: seq<Served>

    constructor (request: Request)
      ensures this.request == request && served == []
    {
      this.request := request;
      served := [];
    }

    function Method(): Method {
      request.method_
    }

    ghost function Progress(): Progress
      reads this, request
    {
      At(served, request.WholeRoute(), request.CurrentRoute(), request.routeParsed)
    }

    ghost predicate Apart(repr: set<object>) {
      this !in repr && request !in repr
    }
  }

  class SubRoute {
    var routes: map<Id, SubRoute>
    var router: Mount<Router>
    var endpoints: Endpoints
    // The node's place in the trie.
    ghost const path: Path

    constructor (ghost path: Path)
      ensures routes == map[] && router.Unmounted? && endpoints == map[] && this.path == path
    {
      routes, router, endpoints := map[], Unmounted, map[];
      this.path := path;
    }

    method MaybeGetSubroute(symbol: Id) returns (child: SubRoute?)
      ensures if symbol in routes then child == routes[symbol] else child == null
    {
      child := if symbol in routes then routes[symbol] else null;
    }
  }

  class Router {
    const root: SubRoute
    // The nodes of the trie, and where each is.
    ghost var nodes: set<SubRoute>
    ghost var layout: Layout

    ghost predicate Valid(symbols: SymbolServer)
      reads this, nodes, symbols
    {
      && symbols.Valid() && WILDCARD in symbols.index
      && Placed() && WellShaped(layout, symbols.Value())
    }

    // Places and nodes correspond one to one, and edges stay among the nodes.
    ghost predicate Placed()
      reads this, nodes
    {
      && [] in layout && layout[[]].node == root
      && (forall p {:trigger layout[p].node} :: p in layout ==> layout[p].node in nodes && layout[p].node.path == p)
      && (forall n {:trigger n in nodes} :: n in nodes ==> Holds(layout, n))
    }

    // The abstract value: what is at every string-keyed place.
    ghost function Value(): Trie<Router>
      reads this
    {
      TrieOf(layout)
    }

    // The edge found through a component's symbol leads to the node at that place.
    lemma FoundThrough(symbols: SymbolServer, p: Path, c: Text)
      requires Valid(symbols) && p in layout
      ensures var id := if c in symbols.index then symbols.index[c] else 0;
              var n := layout[p].node;
              && (id in n.routes <==> p + [c] in layout)
              && (id in n.routes ==> n.routes[id] == layout[p + [c]].node)
    {
      Lookup(layout, symbols.Value(), p, c);
      assert layout[p].node in nodes;
    }

    constructor (symbols: SymbolServer)
      requires symbols.Valid() && WILDCARD in symbols.index
      ensures Valid(symbols) && Value() == map[[] := Bare()]
      ensures fresh(nodes)
    {
      root := new SubRoute([]);
      nodes := {root};
      layout := map[[] := Place(root, map[], Bare())];
    }

    // A new child under a symbol that has none, at place q.
    method Attach(subroute: SubRoute, ghost p: Path, symbol: Id, ghost q: Path) returns (child: SubRoute)
      requires Placed() && p in layout && layout[p].node == subroute
      requires symbol !in subroute.routes && q !in layout
      modifies this`nodes, this`layout, subroute`routes
      ensures Placed() && fresh(child) && nodes == old(nodes) + {child}
      ensures layout == Extended(old(layout), p, symbol, q, child)
      ensures subroute.routes == old(subroute.routes)[symbol := child]
    {
      hide TrieOf, WellShaped, Fits, Extended;
      ghost var before := layout;
      child := new SubRoute(q);
      subroute.routes := subroute.routes[symbol := child];
      layout := Extended(layout, p, symbol, q, child);
      nodes := nodes + {child};
      ExtendedPlaces(before, p, symbol, q, child);
      forall n | n in nodes ensures Holds(layout, n) {
        if n != child {
          assert n in old(nodes) && old(Holds(layout, n));
          FitsExtended(before, p, symbol, q, child, n.path, n, old(n.routes), Node(n.router, n.endpoints));
        }
      }
    }

    // subroute is the node at p.
    ghost predicate Stands(symbols: SymbolServer, subroute: SubRoute, p: Path)
      reads this, nodes, symbols
    {
      && Valid(symbols)
      && subroute in nodes && p in layout && layout[p].node == subroute
    }

    lemma StandsFor(symbols: SymbolServer, subroute: SubRoute, p: Path)
      requires Stands(symbols, subroute, p)
      ensures subroute in nodes && p in Value() && Value()[p] == Node(subroute.router, subroute.endpoints)
    {
    }

    lemma RootStands(symbols: SymbolServer)
      requires Valid(symbols)
      ensures Stands(symbols, root, []) && Grow(Value(), []) == Value()
    {
      assert layout[[]].node in nodes;
      GrowNowhere(Value());
    }

    // One round of the loops of add_route and remove_route: the component becomes a
    // symbol, and the node at p gets a child for it unless it has one.
    method GetOrCreateSubroute(symbols: SymbolServer, subroute: SubRoute, ghost p: Path, component: Text)
      returns (child: SubRoute)
      requires Stands(symbols, subroute, p) && component != [] && |symbols.strings| < ID_LIMIT
      modifies this`nodes, this`layout, subroute`routes, symbols
      ensures Stands(symbols, child, p + [component])
      ensures Extends(symbols.Value(), old(symbols.Value())) && |symbols.strings| <= |old(symbols.strings)| + 1
      ensures fresh(nodes - old(nodes))
      ensures Value() == GrowAt(old(Value()), p + [component])
    {
      var symbol := symbols.Internalize(component);
      LayoutStable(layout, old(symbols.Value()), symbols.Value());
      FoundThrough(symbols, p, component);
      if symbol in subroute.routes {
        child := subroute.routes[symbol];
      } else {
        ghost var before := layout;
        child := Attach(subroute, p, symbol, p + [component]);
        LayoutExtended(before, symbols.Value(), p, component, child);
        TrieExtended(before, p, symbol, p + [component], child);
      }
    }

    // The loop of all three operations: walks from the root along the route's
    // components, creating what is missing.
    method Descend(symbols: SymbolServer, route: Text) returns (subroute: SubRoute)
      requires Valid(symbols) && |symbols.strings| + |Components(route)| <= ID_LIMIT
      modifies this`nodes, this`layout, nodes`routes, symbols
      ensures Stands(symbols, subroute, Components(route))
      ensures Extends(symbols.Value(), old(symbols.Value()))
      ensures fresh(nodes - old(nodes))
      ensures Value() == Grow(old(Value()), Components(route))
    {
      hide Valid, Stands, Grow, GrowAt, Components, SplitSoFar, SplitFirstComponent, TrieOf;
      var remaining := FindRouteStart(route);
      ghost var p: Path := [];
      subroute := root;
      SplitStart(route);
      RootStands(symbols);
      while remaining != []
        invariant Stands(symbols, subroute, p) && SplitSoFar(route, p, remaining)
        invariant Extends(symbols.Value(), old(symbols.Value()))
        invariant |symbols.strings| <= |old(symbols.strings)| + |p|
        invariant fresh(nodes - old(nodes))
        invariant Value() == Grow(old(Value()), p)
        decreases |remaining|
      {
        StandsFor(symbols, subroute, p);
        SplitRound(route, p, remaining);
        var (component, rest) := SplitFirstComponent(remaining);
        GrowStep(old(Value()), p, component);
        remaining := rest;
        subroute := GetOrCreateSubroute(symbols, subroute, p, component);
        p := p + [component];
      }
      SplitEnd(route, p);
    }

    // Changes what the node at p holds.
    method Put(subroute: SubRoute, ghost p: Path, mount: Mount<Router>, endpoints: Endpoints)
      requires Placed() && subroute in nodes && p in layout && layout[p].node == subroute
      modifies this`layout, subroute`router, subroute`endpoints
      ensures Placed() && layout == Revalued(old(layout), p, Node(mount, endpoints))
    {
      hide TrieOf, WellShaped;
      subroute.router, subroute.endpoints := mount, endpoints;
      layout := Revalued(layout, p, Node(mount, endpoints));
      forall n | n in nodes ensures Holds(layout, n) {
        assert old(Holds(layout, n));
      }
    }

    method Store(symbols: SymbolServer, subroute: SubRoute, ghost p: Path, mount: Mount<Router>, endpoints: Endpoints)
      requires Stands(symbols, subroute, p)
      modifies this`layout, subroute`router, subroute`endpoints
      ensures Valid(symbols)
      ensures Value() == old(Value())[p := Node(mount, endpoints)]
    {
      RevaluedFits(layout, symbols.Value(), p, Node(mount, endpoints));
      TrieRevalued(layout, p, Node(mount, endpoints));
      hide WellShaped, TrieOf, Consistent, Placed, Revalued;
      Put(subroute, p, mount, endpoints);
    }

    // add_route for a router; null is Unmounted.
    method AddRouter(symbols: SymbolServer, router: Mount<Router>, route: Text)
      requires Valid(symbols) && |symbols.strings| + |Components(route)| <= ID_LIMIT
      modifies this`nodes, this`layout, nodes, symbols
      ensures Valid(symbols) && Extends(symbols.Value(), old(symbols.Value())) && fresh(nodes - old(nodes))
      ensures Value() == Apply(old(Value()), AddMount(Components(route), router))
    {
      var subroute := Descend(symbols, route);
      StandsFor(symbols, subroute, Components(route));
      Applied(old(Value()), AddMount(Components(route), router));
      hide Valid, Stands, Extends, Components, Grow, TrieOf, Apply;
      Store(symbols, subroute, Components(route), router, subroute.endpoints);
    }

    // add_route for a callback.
    method AddCallback(symbols: SymbolServer, callback: Callback, route: Text, m: Method)
      requires Valid(symbols) && |symbols.strings| + |Components(route)| <= ID_LIMIT
      modifies this`nodes, this`layout, nodes, symbols
      ensures Valid(symbols) && Extends(symbols.Value(), old(symbols.Value())) && fresh(nodes - old(nodes))
      ensures Value() == Apply(old(Value()), AddEndpoint(Components(route), m, callback))
    {
      var subroute := Descend(symbols, route);
      StandsFor(symbols, subroute, Components(route));
      Applied(old(Value()), AddEndpoint(Components(route), m, callback));
      hide Valid, Stands, Extends, Components, Grow, TrieOf, Apply;
      Store(symbols, subroute, Components(route), subroute.router, subroute.endpoints[m := callback]);
    }

    method RemoveRoute(symbols: SymbolServer, route: Text) returns (removed: bool)
      requires Valid(symbols) && |symbols.strings| + |Components(route)| <= ID_LIMIT
      modifies this`nodes, this`layout, nodes, symbols
      ensures Valid(symbols) && Extends(symbols.Value(), old(symbols.Value())) && fresh(nodes - old(nodes))
      ensures Value() == Apply(old(Value()), RemoveAll(Components(route)))
      ensures removed <==> Registered(old(Value()), Components(route))
    {
      var subroute := Descend(symbols, route);
      StandsFor(symbols, subroute, Components(route));
      Applied(old(Value()), RemoveAll(Components(route)));
      hide Valid, Stands, Extends, Components, Grow, TrieOf, Apply, Registered;
      removed := false;
      if !subroute.router.Unmounted? {
        removed := true;
      }
      if subroute.endpoints != map[] {
        removed := true;
      }
      Store(symbols, subroute, Components(route), Unmounted, map[]);
    }

    // This router is one of a world in good order: every router of it stands for
    // its trie. repr holds all the objects involved.
    ghost predicate Ready(symbols: SymbolServer, w: World<Router>, rank: map<Router, nat>, repr: set<object>)
      reads repr
    {
      && symbols in repr && Known(w, rank, this)
      && forall r :: r in w ==> r in repr && r.nodes <= repr && r.Valid(symbols) && r.Value() == w[r]
    }

    // subroute is the node at p.
    ghost predicate Is(subroute: SubRoute, p: Path)
      reads this
    {
      p in layout && layout[p].node == subroute
    }

    lemma ReadyStands(symbols: SymbolServer, w: World<Router>, rank: map<Router, nat>, repr: set<object>,
                      subroute: SubRoute, p: Path)
      requires Ready(symbols, w, rank, repr) && Is(subroute, p)
      ensures Stands(symbols, subroute, p) && Known(w, rank, this) && Value() == w[this]
      ensures this in repr && subroute in repr && symbols in repr
      ensures p in w[this] && w[this][p] == Node(subroute.router, subroute.endpoints)
      ensures subroute.router.Nested? ==>
                var s := subroute.router.router;
                && this in rank && s in rank && 0 <= rank[s] < rank[this]
                && s.Ready(symbols, w, rank, repr) && Known(w, rank, s)
    {
      assert Valid(symbols);
      StandsFor(symbols, subroute, p);
    }

    // The child a component leads to, else the wildcard child, else none.
    method NextSubroute(symbols: SymbolServer, subroute: SubRoute, component: Text,
                        ghost p: Path, ghost w: World<Router>, ghost rank: map<Router, nat>, ghost repr: set<object>)
      returns (next: SubRoute?)
      requires Ready(symbols, w, rank, repr) && Is(subroute, p)
      ensures this in w
      ensures match Next(w[this], p, component)
              case None => next == null
              case Some(q) => next != null && Is(next, q)
    {
      hide Ready, Valid, Is, Consistent, WellShaped;
      FoundChild(symbols, w, rank, repr, subroute, p, component);
      FoundChild(symbols, w, rank, repr, subroute, p, WILDCARD);
      var _, symbol := symbols.CheckInternalization(component);
      next := subroute.MaybeGetSubroute(symbol);
      if next == null {
        next := subroute.MaybeGetSubroute(symbols.index[WILDCARD]);
      }
    }

    lemma FoundChild(symbols: SymbolServer, w: World<Router>, rank: map<Router, nat>, repr: set<object>,
                     subroute: SubRoute, p: Path, c: Text)
      requires Ready(symbols, w, rank, repr) && Is(subroute, p)
      ensures symbols.Valid() && WILDCARD in symbols.index && this in w
      ensures var id := if c in symbols.index then symbols.index[c] else 0;
              && (id in subroute.routes <==> p + [c] in w[this])
              && (id in subroute.routes ==> Is(subroute.routes[id], p + [c]))
    {
      ReadyStands(symbols, w, rank, repr, subroute, p);
      FoundThrough(symbols, p, c);
    }

    lemma ValidIsTrie(symbols: SymbolServer)
      requires Valid(symbols)
      ensures IsTrie(Value())
    {
      forall p | p in Value() ensures HasParent(Value(), p) {
        assert Hangs(layout, symbols.Value(), p);
      }
    }

    // A router whose mounts are in a world in good order can join it, above them.
    lemma Joins(symbols: SymbolServer, w: World<Router>, rank: map<Router, nat>, repr: set<object>, n: nat)
      requires symbols in repr && Acyclic(w, rank) && Valid(symbols) && this !in w
      requires forall r :: r in w ==> r in repr && r.nodes <= repr && r.Valid(symbols) && r.Value() == w[r]
      requires forall p :: p in Value() && Value()[p].mount.Nested? ==>
                 var s := Value()[p].mount.router;
                 s in w && s in rank && rank[s] < n
      ensures Ready(symbols, w[this := Value()], rank[this := n], repr + {this} + nodes)
    {
      hide IsTrie, Valid, TrieOf;
      ValidIsTrie(symbols);
    }

    // The call subroute->router->handle_request(context), whichever router that is.
    method HandleMounted(context: RequestContext, symbols: SymbolServer, subroute: SubRoute,
                         ghost p: Path, ghost w: World<Router>, ghost rank: map<Router, nat>, ghost repr: set<object>)
      returns (result: RouteResult)
      requires Ready(symbols, w, rank, repr) && Is(subroute, p) && context.Apart(repr)
      requires context.request.routeParsed && Known(w, rank, this) && p in w[this]
      modifies context, context.request
      ensures var o := Ask(w, rank, this, p, old(context.Progress()).route, context.Method());
              result == o.result && context.Progress() == old(context.Progress()).After(o)
      decreases rank[this], 0
    {
      hide Ready, Acyclic, Known, Stands, Valid, Serve, Is, TrieOf;
      ReadyStands(symbols, w, rank, repr, subroute, p);
      match subroute.router {
        case Unmounted =>
          result := NotFound;
        case Nested(router) =>
          result := router.HandleRequest(context, symbols, w, rank, repr);
        case Foreign(id, answer) =>
          result := answer(context.request.relativeRoute, context.request.method_);
          if result == Handled {
            context.served := context.served + [Served(ForeignRouter(id), context.request.relativeRoute)];
          }
      }
    }

    lemma NodeOf(symbols: SymbolServer, w: World<Router>, rank: map<Router, nat>, repr: set<object>,
                 subroute: SubRoute, p: Path)
      requires Ready(symbols, w, rank, repr) && Is(subroute, p)
      ensures this in repr && subroute in repr
      ensures this in w && p in w[this] && w[this][p] == Node(subroute.router, subroute.endpoints)
    {
      ReadyStands(symbols, w, rank, repr, subroute, p);
    }

    lemma RootReady(symbols: SymbolServer, w: World<Router>, rank: map<Router, nat>, repr: set<object>)
      requires Ready(symbols, w, rank, repr)
      ensures Is(root, []) && this in w && [] in w[this] && this in rank && Known(w, rank, this)
      ensures w[this][[]] == Node(root.router, root.endpoints)
    {
      ReadyStands(symbols, w, rank, repr, root, []);
    }

    // Asks the router mounted on the node at p, if any, for the rest of the route,
    // with the request's relative route swapped for it; swaps back unless it
    // handled the request.
    method AskMounted(context: RequestContext, symbols: SymbolServer, subroute: SubRoute, rest: Path,
                      answer: RouteResult, ghost p: Path, ghost w: World<Router>, ghost rank: map<Router, nat>,
                      ghost repr: set<object>)
      returns (result: RouteResult)
      requires Ready(symbols, w, rank, repr) && Is(subroute, p) && context.Apart(repr)
      requires context.request.routeParsed && answer != Handled && Known(w, rank, this) && p in w[this]
      modifies context, context.request
      ensures var o := Ask(w, rank, this, p, rest, context.Method());
              && result == Newer(o.result, answer)
              && context.Progress() == old(context.Progress()).After(o)
      decreases rank[this], 1
    {
      hide Ready, Acyclic, Known, Stands, Valid, Is, TrieOf;
      ReadyStands(symbols, w, rank, repr, subroute, p);
      ghost var o := Ask(w, rank, this, p, rest, context.Method());
      assert subroute.router.Unmounted? ==> o == NOT_FOUND;
      assert Fair(o);
      hide Ask;
      if subroute.router.Unmounted? {
        return answer;
      }
      var saved := context.request.SwapRelativeRoute(rest);
      result := HandleMounted(context, symbols, subroute, p, w, rank, repr);
      if result == Handled {
        return;
      }
      if result == NotFound {
        result := answer;
      }
      var _ := context.request.SwapRelativeRoute(saved);
    }

    method RunCallback(context: RequestContext, callback: Callback)
      requires context.request.routeParsed
      modifies context
      ensures context.Progress() == old(context.Progress()).After(Ran(callback, old(context.Progress()).route))
    {
      context.served := context.served + [Served(Callback(callback), context.request.relativeRoute)];
    }

    // The part of handle_request after its loop. subroute is the last node if the
    // whole route was walked, and null if it was not.
    method Finish(context: RequestContext, subroute: SubRoute?, lastWithCatchRecursive: SubRoute?, answer: RouteResult)
      returns (result: RouteResult)
      requires context.request.routeParsed && answer != Handled
      modifies context
      ensures var o := old(Left(subroute, answer, lastWithCatchRecursive, context));
              result == o.result && context.Progress() == old(context.Progress()).After(o)
    {
      result := answer;
      if subroute != null {
        if subroute.endpoints == map[] {
          result := NotFound;
        } else {
          var m := context.request.method_;
          if m !in subroute.endpoints {
            m := CatchAllHere;
          }
          if m !in subroute.endpoints {
            m := CatchAllRecursive;
          }
          if m in subroute.endpoints {
            RunCallback(context, subroute.endpoints[m]);
            return Handled;
          }
          result := InvalidMethod;
        }
      }
      if result == NotFound && lastWithCatchRecursive != null {
        if CatchAllRecursive in lastWithCatchRecursive.endpoints {
          RunCallback(context, lastWithCatchRecursive.endpoints[CatchAllRecursive]);
          return Handled;
        }
      }
    }

    // The loop of handle_request. It ends with the request handled by a mount, or with
    // subroute at the last node if the whole route was walked and null if it was not,
    // and lastWithCatchRecursive the deepest node passed with a recursive catch-all.
    method WalkRoute(context: RequestContext, symbols: SymbolServer,
                     ghost w: World<Router>, ghost rank: map<Router, nat>, ghost repr: set<object>)
      returns (result: RouteResult, subroute: SubRoute?, lastWithCatchRecursive: SubRoute?)
      requires Ready(symbols, w, rank, repr) && context.Apart(repr) && Known(w, rank, this)
      modifies context, context.request
      ensures var before := old(context.Progress());
              var o := Serve(w, rank, this, before.route, context.Method());
              if result == Handled then o.result == Handled && context.Progress() == before.After(o)
              else
                && context.Progress() == before.(parsed := true)
                && o == Left(subroute, result, lastWithCatchRecursive, context)
      decreases rank[this], 2
    {
      hide Ready, Known, Is, TrieOf, Reached, Next, Settle, Serve, Ask, Fair, Newer, Progress.After;
      RootReady(symbols, w, rank, repr);
      ghost var before := context.Progress();
      ReachedStart(w, rank, this, before.route, context.Method());
      result := NotFound;
      subroute := root;
      lastWithCatchRecursive := if CatchAllRecursive in root.endpoints then root else null;
      var route := context.request.RelativeRoute();
      var i := 0;
      ghost var p: Path := [];
      while true
        invariant Ready(symbols, w, rank, repr) && 0 <= i <= |route|
        invariant context.Progress() == before.(parsed := true)
        invariant p in w[this] && subroute != null && Is(subroute, p)
        invariant Reached(w, rank, this, route, context.Method(), i, p, result, CatchAllOf(lastWithCatchRecursive))
        decreases |route| - i
      {
        NodeOf(symbols, w, rank, repr, subroute, p);
        ReachedStep(w, rank, this, route, context.Method(), i, p, result, CatchAllOf(lastWithCatchRecursive));
        AfterParsing(before, Ask(w, rank, this, p, route[i..], context.Method()));
        result := AskMounted(context, symbols, subroute, route[i..], result, p, w, rank, repr);
        if result == Handled {
          return;
        }
        if i == |route| {
          break;
        }
        subroute := NextSubroute(symbols, subroute, route[i], p, w, rank, repr);
        if subroute == null {
          break;
        }
        p, i := Next(w[this], p, route[i]).value, i + 1;
        NodeOf(symbols, w, rank, repr, subroute, p);
        if CatchAllRecursive in subroute.endpoints {
          lastWithCatchRecursive := subroute;
        }
      }
    }

    method HandleRequest(context: RequestContext, symbols: SymbolServer,
                         ghost w: World<Router>, ghost rank: map<Router, nat>, ghost repr: set<object>)
      returns (result: RouteResult)
      requires Ready(symbols, w, rank, repr) && context.Apart(repr) && Known(w, rank, this)
      modifies context, context.request
      ensures var o := Serve(w, rank, this, old(context.Progress()).route, context.Method());
              result == o.result && context.Progress() == old(context.Progress()).After(o)
      ensures context.request.WholeRoute() == old(context.request.WholeRoute())
      ensures if result == Handled then
                var s := Serve(w, rank, this, old(context.request.CurrentRoute()), context.Method()).served;
                && s.Some? && context.served == old(context.served) + [s.value]
                && context.request.CurrentRoute() == s.value.seen
              else
                && context.served == old(context.served)
                && context.request.CurrentRoute() == old(context.request.CurrentRoute())
      decreases rank[this], 3
    {
      hide Ready, Known, Settle, Serve;
      AfterParsing(context.Progress(), Serve(w, rank, this, context.Progress().route, context.Method()));
      var subroute, lastWithCatchRecursive;
      result, subroute, lastWithCatchRecursive := WalkRoute(context, symbols, w, rank, repr);
      if result != Handled {
        result := Finish(context, subroute, lastWithCatchRecursive, result);
      }
    }
  }

  // What is left to decide after the loop.
  ghost function Left(subroute: SubRoute?, answer: RouteResult, lastWithCatchRecursive: SubRoute?,
                      context: RequestContext): Outcome
    requires answer != Handled
    reads subroute, lastWithCatchRecursive, context, context.request
  {
    Settle(if subroute == null then map[] else subroute.endpoints, subroute != null, answer,
           CatchAllOf(lastWithCatchRecursive), context.Progress().route, context.Method())
  }

  ghost function CatchAllOf(node: SubRoute?): Option<Callback>
    reads node
  {
    if node != null && CatchAllRecursive in node.endpoints then Some(node.endpoints[CatchAllRecursive]) else None
  }

  // Interning more strings leaves a router as it is.
  twostate lemma StillValid(r: Router, symbols: SymbolServer)
    requires old(r.Valid(symbols)) && symbols.Valid()
    requires Extends(symbols.Value(), old(symbols.Value()))
    requires r.nodes == old(r.nodes) && r.layout == old(r.layout)
    requires forall n :: n in r.nodes ==>
               n.routes == old(n.routes) && n.router == old(n.router) && n.endpoints == old(n.endpoints)
    ensures r.Valid(symbols) && r.Value() == old(r.Value())
  {
    LayoutStable(r.layout, old(symbols.Value()), symbols.Value());
  }
}
