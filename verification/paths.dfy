// Cutting text at separators: the route of src/lib/request.cpp and of
// src/lib/router.cpp, which cut the same string by different loops.
module Paths {
  import opened Bytes

  // ----- Specification: the maximal slash-free runs -----

  // How many bytes at the front of s are, or are not, slashes.
  function SlashRun(s: Text): (n: nat)
    ensures n <= |s|
  {
    if s != [] && s[0] == SLASH then 1 + SlashRun(s[1..]) else 0
  }

  function PlainRun(s: Text): (n: nat)
    ensures n <= |s|
    ensures s != [] && s[0] != SLASH ==> n > 0
  {
    if s != [] && s[0] != SLASH then 1 + PlainRun(s[1..]) else 0
  }

  function Components(s: Text): seq<Text>
    decreases |s|
  {
    if s == [] then []
    else if s[0] == SLASH then Components(s[1..])
    else [s[..PlainRun(s)]] + Components(s[PlainRun(s)..])
  }

  // A component as a request can carry it.
  predicate IsComponent(c: Text) {
    c != [] && SLASH !in c
  }

  // Components written out with a slash before each.
  function Joined(cs: seq<Text>): Text {
    if cs == [] then [] else [SLASH] + cs[0] + Joined(cs[1..])
  }

  lemma {:induction false} PlainRunOf(c: Text, rest: Text)
    requires SLASH !in c && (rest == [] || rest[0] == SLASH)
    ensures PlainRun(c + rest) == |c|
  {
    if c == [] {
      assert c + rest == rest;
    } else {
      PlainRunOf(c[1..], rest);
      assert (c + rest)[1..] == c[1..] + rest;
    }
  }

  // Any list of components is the cut of some document URI.
  lemma {:induction false} ComponentsOfJoined(cs: seq<Text>)
    requires forall i :: 0 <= i < |cs| ==> IsComponent(cs[i])
    ensures Components(Joined(cs)) == cs
  {
    hide PlainRun, Components;
    if cs == [] {
      NoComponents();
    } else {
      var rest := Joined(cs[1..]);
      var tail := cs[0] + rest;
      PlainRunOf(cs[0], rest);
      assert Joined(cs) == [SLASH] + tail && Joined(cs)[1..] == tail;
      assert tail[0] == cs[0][0] && tail[..|cs[0]|] == cs[0] && tail[|cs[0]|..] == rest;
      ComponentsOfJoined(cs[1..]);
      ComponentsStep(Joined(cs));
      ComponentsStep(tail);
    }
  }

  lemma NoComponents()
    ensures Components([]) == []
  {
  }

  lemma ComponentsStep(s: Text)
    requires s != []
    ensures Components(s) ==
            if s[0] == SLASH then Components(s[1..]) else [s[..PlainRun(s)]] + Components(s[PlainRun(s)..])
  {
  }

  lemma {:induction false} PlainRunIsPlain(s: Text)
    ensures SLASH !in s[..PlainRun(s)]
    ensures PlainRun(s) < |s| ==> s[PlainRun(s)] == SLASH
  {
    if s != [] && s[0] != SLASH {
      PlainRunIsPlain(s[1..]);
      assert s[..PlainRun(s)] == [s[0]] + s[1..][..PlainRun(s[1..])];
    }
  }

  // Components written out with any number of slashes around each: as many before the
  // first as gaps say, and so on, and at least one between two.
  function Slashes(n: nat): Text {
    seq(n, i => 0x2f)
  }

  function Spaced(cs: seq<Text>, gaps: seq<nat>): Text
    requires |gaps| == |cs| + 1
  {
    if cs == [] then Slashes(gaps[0]) else Slashes(gaps[0]) + cs[0] + Spaced(cs[1..], gaps[1..])
  }

  predicate Separates(gaps: seq<nat>) {
    forall i :: 0 < i < |gaps| - 1 ==> gaps[i] > 0
  }

  lemma {:induction false} SlashesSkipped(n: nat, s: Text)
    ensures Components(Slashes(n) + s) == Components(s)
  {
    if n == 0 {
      assert Slashes(0) + s == s;
    } else {
      SlashesSkipped(n - 1, s);
      assert (Slashes(n) + s)[1..] == Slashes(n - 1) + s;
    }
  }

  // However they are spelt, it is these components that the text is cut into.
  lemma {:induction false} ComponentsOfSpaced(cs: seq<Text>, gaps: seq<nat>)
    requires |gaps| == |cs| + 1 && Separates(gaps)
    requires forall i :: 0 <= i < |cs| ==> IsComponent(cs[i])
    ensures Components(Spaced(cs, gaps)) == cs
  {
    hide PlainRun, Components, Slashes;
    NoComponents();
    if cs == [] {
      SlashesSkipped(gaps[0], []);
      assert Slashes(gaps[0]) + [] == Slashes(gaps[0]);
    } else {
      var rest := Spaced(cs[1..], gaps[1..]);
      var tail := cs[0] + rest;
      ComponentsOfSpaced(cs[1..], gaps[1..]);
      SpacedStarts(cs[1..], gaps[1..]);
      PlainRunOf(cs[0], rest);
      SlashesSkipped(gaps[0], tail);
      assert Spaced(cs, gaps) == Slashes(gaps[0]) + tail;
      assert tail[0] == cs[0][0] && tail[..|cs[0]|] == cs[0] && tail[|cs[0]|..] == rest;
      ComponentsStep(tail);
    }
  }

  lemma SpacedStarts(cs: seq<Text>, gaps: seq<nat>)
    requires |gaps| == |cs| + 1 && (cs != [] ==> gaps[0] > 0)
    ensures Spaced(cs, gaps) == [] || Spaced(cs, gaps)[0] == SLASH
  {
  }

  // And every text is such a spelling of what it is cut into.
  lemma {:induction false} SpacingOf(s: Text) returns (gaps: seq<nat>)
    ensures |gaps| == |Components(s)| + 1 && Separates(gaps)
    ensures Components(s) != [] && s[0] == SLASH ==> gaps[0] > 0
    ensures s == Spaced(Components(s), gaps)
    decreases |s|
  {
    hide Components, Spaced, PlainRun, Slashes;
    NoComponents();
    if s == [] {
      gaps := [0];
      NoSlashes([]);
    } else if s[0] == SLASH {
      var more := SpacingOf(s[1..]);
      ComponentsStep(s);
      gaps := OneMoreSlash(Components(s), more);
      assert s == [SLASH] + s[1..];
    } else {
      PlainRunIsPlain(s);
      var run := PlainRun(s);
      var more := SpacingOf(s[run..]);
      ComponentsStep(s);
      gaps := [0] + more;
      SpacedStep(Components(s), gaps);
      NoSlashes(s[..run]);
      assert Components(s)[1..] == Components(s[run..]) && gaps[1..] == more;
      assert s == s[..run] + s[run..];
    }
  }

  lemma SpacedStep(cs: seq<Text>, gaps: seq<nat>)
    requires |gaps| == |cs| + 1 && cs != []
    ensures Spaced(cs, gaps) == Slashes(gaps[0]) + cs[0] + Spaced(cs[1..], gaps[1..])
  {
  }

  lemma NoSlashes(c: Text)
    ensures Slashes(0) + c == c && Spaced([], [0]) == []
  {
  }

  lemma OneMoreSlash(cs: seq<Text>, gaps: seq<nat>) returns (more: seq<nat>)
    requires |gaps| == |cs| + 1 && Separates(gaps)
    ensures |more| == |gaps| && Separates(more) && more[0] > 0
    ensures Spaced(cs, more) == [SLASH] + Spaced(cs, gaps)
  {
    hide Slashes;
    more := gaps[0 := gaps[0] + 1];
    assert more[1..] == gaps[1..];
    LongerByOne(gaps[0]);
  }

  lemma LongerByOne(n: nat)
    ensures Slashes(n + 1) == [SLASH] + Slashes(n)
  {
  }

  // Every piece of a cut is non-empty and free of slashes.
  lemma {:induction false} ComponentsAreComponents(s: Text)
    ensures forall i :: 0 <= i < |Components(s)| ==> IsComponent(Components(s)[i])
    decreases |s|
  {
    if s != [] {
      if s[0] == SLASH {
        ComponentsAreComponents(s[1..]);
      } else {
        PlainRunIsPlain(s);
        ComponentsAreComponents(s[PlainRun(s)..]);
      }
    }
  }

  lemma {:induction false} SkipSlashes(s: Text)
    ensures Components(s[SlashRun(s)..]) == Components(s)
    ensures SlashRun(s) < |s| ==> s[SlashRun(s)] != SLASH
  {
    if s != [] && s[0] == SLASH {
      SkipSlashes(s[1..]);
      assert s[SlashRun(s)..] == s[1..][SlashRun(s[1..])..];
    }
  }

  // ----- The router's splitter -----

  function FindRouteStart(route: Text): Text {
    route[SlashRun(route)..]
  }

  function SplitFirstComponent(route: Text): (Text, Text) {
    var end := PlainRun(route);
    (route[..end], route[end..][SlashRun(route[end..])..])
  }

  // Between two rounds of the router's loop: p has been split off, the rest
  // starts with a component.
  ghost predicate SplitSoFar(route: Text, p: seq<Text>, remaining: Text) {
    (remaining == [] || remaining[0] != SLASH) && p + Components(remaining) == Components(route)
  }

  lemma SplitStart(route: Text)
    ensures SplitSoFar(route, [], FindRouteStart(route))
  {
    SkipSlashes(route);
  }

  // One round takes the first component.
  lemma SplitRound(route: Text, p: seq<Text>, remaining: Text)
    requires SplitSoFar(route, p, remaining) && remaining != []
    ensures var (component, rest) := SplitFirstComponent(remaining);
            && component != [] && SplitSoFar(route, p + [component], rest)
            && |rest| < |remaining| && |p| < |Components(route)|
  {
    SkipSlashes(remaining[PlainRun(remaining)..]);
    var (component, rest) := SplitFirstComponent(remaining);
    assert Components(remaining) == [component] + Components(rest);
    Associative(p, [component], Components(rest));
  }

  lemma SplitEnd(route: Text, p: seq<Text>)
    requires SplitSoFar(route, p, [])
    ensures p == Components(route)
  {
  }

  // ----- The request's splitter -----

  // std::string_view::find: the index of the first sep, or the length.
  method Find(s: Text, sep: Byte) returns (at: nat)
    ensures at <= |s| && sep !in s[..at] && (at < |s| ==> s[at] == sep)
  {
    at := 0;
    while at < |s| && s[at] != sep
      invariant at <= |s| && sep !in s[..at]
    {
      at := at + 1;
    }
  }

  // The loop of Request::full_route.
  method SplitRoute(documentUri: Text) returns (route: seq<Text>)
    ensures route == Components(documentUri)
  {
    route := [];
    var uri := documentUri;
    while uri != []
      invariant route + Components(uri) == Components(documentUri)
      decreases |uri|
    {
      var split := Find(uri, SLASH);
      var element := uri[..split];
      CutAtSlash(uri, split);
      uri := if split == |uri| then [] else uri[split + 1..];
      if element != [] {
        route := route + [element];
      }
    }
  }

  lemma CutAtSlash(uri: Text, split: nat)
    requires uri != [] && split <= |uri| && SLASH !in uri[..split]
    requires split < |uri| ==> uri[split] == SLASH
    ensures Components(uri) ==
            (if split > 0 then [uri[..split]] else [])
            + Components(if split == |uri| then [] else uri[split + 1..])
  {
    if split > 0 {
      assert uri == uri[..split] + uri[split..];
      PlainRunOf(uri[..split], uri[split..]);
      assert uri[0] == uri[..split][0];
    }
    if split < |uri| {
      assert Components(uri[split..]) == Components(uri[split..][1..]);
      assert uri[split..][1..] == uri[split + 1..];
    }
  }
}
