// What a request asks for: the route and the query of src/lib/request.cpp, parsed
// when first wanted. What it answers is in response.dfy.
module Requests {
  import opened Bytes
  import opened Paths
  import opened Queries
  import opened Routing

  class Request {
    const documentUri: Text
    const queryString: Text
    const method_: Method

    var route: Path
    var relativeRoute: Path
    var routeParsed: bool
    var query: seq<Param>
    var queryParsed: bool

    constructor (documentUri: Text, queryString: Text, method_: Method)
      ensures this.documentUri == documentUri && this.queryString == queryString && this.method_ == method_
      ensures CurrentRoute() == Components(documentUri) && RouteKept() && QueryKept()
    {
      this.documentUri, this.queryString, this.method_ := documentUri, queryString, method_;
      route, relativeRoute, routeParsed := [], [], false;
      query, queryParsed := [], false;
    }

    // What relative_route() answers.
    function CurrentRoute(): Path
      reads this
    {
      if routeParsed then relativeRoute else Components(documentUri)
    }

    // What full_route() answers.
    function WholeRoute(): Path
      reads this
    {
      if routeParsed then route else Components(documentUri)
    }

    // The full route is that of the document URI, whatever relative route is shown.
    ghost predicate RouteKept()
      reads this
    {
      WholeRoute() == Components(documentUri)
    }

    method FullRoute() returns (full: Path)
      modifies this`route, this`relativeRoute, this`routeParsed
      ensures full == route == old(WholeRoute()) && routeParsed && CurrentRoute() == old(CurrentRoute())
      ensures old(RouteKept()) ==> RouteKept() && full == Components(documentUri)
    {
      if !routeParsed {
        route := SplitRoute(documentUri);
        routeParsed := true;
        relativeRoute := route;
      }
      full := route;
    }

    method RelativeRoute() returns (relative: Path)
      modifies this`route, this`relativeRoute, this`routeParsed
      ensures relative == relativeRoute == old(CurrentRoute()) && routeParsed && WholeRoute() == old(WholeRoute())
      ensures old(RouteKept()) ==> RouteKept()
    {
      if !routeParsed {
        var _ := FullRoute();
      }
      relative := relativeRoute;
    }

    method SwapRelativeRoute(given: Path) returns (previous: Path)
      modifies this`relativeRoute
      ensures relativeRoute == given && previous == old(relativeRoute)
      ensures WholeRoute() == old(WholeRoute()) && (old(RouteKept()) ==> RouteKept())
    {
      previous, relativeRoute := relativeRoute, given;
    }

    ghost predicate QueryKept()
      reads this
    {
      queryParsed ==> query == Params(queryString)
    }

    // The parameters, parsed at the first call only.
    method Query() returns (params: seq<Param>)
      requires QueryKept()
      modifies this`query, this`queryParsed
      ensures QueryKept() && queryParsed && params == query
    {
      if !queryParsed {
        query := ParseQuery(queryString);
        queryParsed := true;
      }
      params := query;
    }

    // The first parameter with that key.
    method QueryValue(key: Text) returns (found: bool, value: Text)
      requires QueryKept()
      modifies this`query, this`queryParsed
      ensures QueryKept()
      ensures found <==> HasKey(Params(queryString), key)
      ensures found ==> FirstWith(Params(queryString), key, value)
      ensures !found ==> value == []
    {
      var params := Query();
      found, value := FirstParam(params, key);
    }
  }
}
