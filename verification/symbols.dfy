// The intern table of src/lib/symbol_server.cpp, the symbols of src/lib/symbol.cpp
// on top of it, and what any number of threads interning at once can observe.
module Symbols {
  import opened Bytes

  // unsigned int.
  newtype Id = i: int | 0 <= i < 0x1_0000_0000

  // m_strings and m_index.
  datatype Table = Table(strings: seq<Text>, index: map<Text, Id>)

  const ID_LIMIT: nat := 0x1_0000_0000
  // !!! invalid symbol !!!
  const INVALID_SYMBOL: Text :=
    [0x21, 0x21, 0x21, 0x20, 0x69, 0x6e, 0x76, 0x61, 0x6c, 0x69, 0x64, 0x20,
     0x73, 0x79, 0x6d, 0x62, 0x6f, 0x6c, 0x20, 0x21, 0x21, 0x21]
  const EMPTY := Table([[]], map[[] := 0])

  // The two halves are inverse to each other, and id 0 is the empty string.
  ghost predicate Consistent(t: Table) {
    && |t.strings| > 0 && t.strings[0] == []
    && (forall i :: 0 <= i < |t.strings| ==> t.strings[i] in t.index && t.index[t.strings[i]] as int == i)
    && (forall s :: s in t.index ==> t.index[s] as int < |t.strings| && t.strings[t.index[s]] == s)
  }

  // The exclusive half of internalize: recheck, then append. The new id is the
  // list's size cast to unsigned int.
  function Commit(t: Table, s: Text): (Table, Id) {
    if s in t.index then (t, t.index[s])
    else
      var id := (|t.strings| % ID_LIMIT) as Id;
      (Table(t.strings + [s], t.index[s := id]), id)
  }

  // t' knows everything t does, under the same ids, and its list only grew at the end.
  ghost predicate Extends(t': Table, t: Table) {
    && t.strings <= t'.strings
    && (forall s :: s in t.index ==> s in t'.index && t'.index[s] == t.index[s])
  }

  // Interning keeps the table consistent up to the 2^32nd string, and exactly so
  // long: the next new string would get id 0, which is the empty string's.
  lemma CommitConsistent(t: Table, s: Text)
    requires Consistent(t) && |t.strings| <= ID_LIMIT
    ensures Consistent(Commit(t, s).0) <==> s in t.index || |t.strings| < ID_LIMIT
    ensures Extends(Commit(t, s).0, t)
    ensures s !in t.index && |t.strings| == ID_LIMIT ==> Commit(t, s).1 == 0
  {
    var (t', id) := Commit(t, s);
    if s !in t.index {
      assert s != [] by {
        assert t.strings[0] in t.index;
      }
      assert t'.strings[|t.strings|] == s;
      if |t.strings| < ID_LIMIT {
        assert forall i :: 0 <= i < |t.strings| ==> t'.strings[i] == t.strings[i];
        assert Consistent(t');
      } else {
        assert t'.index[t'.strings[|t.strings|]] == 0;
      }
    }
  }

  lemma CommitResult(t: Table, s: Text)
    requires Consistent(t) && (s in t.index || |t.strings| < ID_LIMIT)
    ensures var (t', id) := Commit(t, s);
            s in t'.index && t'.index[s] == id && id as int < |t'.strings| && t'.strings[id] == s
  {
  }

  // ----- Symbols -----

  function Resolved(t: Table, id: Id): Text {
    if id as int < |t.strings| then t.strings[id] else INVALID_SYMBOL
  }

  // std::string_view::compare, as -1, 0 or 1.
  function CompareText(s: Text, t: Text): (c: int)
    ensures -1 <= c <= 1
  {
    if s == [] && t == [] then 0
    else if s == [] then -1
    else if t == [] then 1
    else if s[0] != t[0] then (if s[0] < t[0] then -1 else 1)
    else CompareText(s[1..], t[1..])
  }

  // Symbol::compare: equal ids need no look at the strings.
  function Compare(t: Table, a: Id, b: Id): int {
    if a == b then 0 else CompareText(Resolved(t, a), Resolved(t, b))
  }

  lemma {:induction false} CompareTextOrders(s: Text, t: Text)
    ensures CompareText(s, t) == 0 <==> s == t
    ensures CompareText(t, s) == -CompareText(s, t)
  {
    if s != [] && t != [] && s[0] == t[0] {
      CompareTextOrders(s[1..], t[1..]);
      assert s == [s[0]] + s[1..] && t == [t[0]] + t[1..];
    }
  }

  // s comes before t in the dictionary: where they part, at n, s has ended or has the
  // smaller byte.
  predicate PartsBelow(s: Text, t: Text, n: nat) {
    n <= |s| && n < |t| && s[..n] == t[..n] && (n < |s| ==> s[n] < t[n])
  }

  ghost predicate Before(s: Text, t: Text) {
    exists n :: PartsBelow(s, t, n)
  }

  lemma {:induction false} CompareTextSign(s: Text, t: Text)
    ensures CompareText(s, t) == -1 <==> Before(s, t)
  {
    if s != [] && t != [] && s[0] == t[0] {
      CompareTextSign(s[1..], t[1..]);
      forall n: nat | PartsBelow(s[1..], t[1..], n) ensures PartsBelow(s, t, n + 1) {
        assert s[..n + 1] == [s[0]] + s[1..][..n] && t[..n + 1] == [t[0]] + t[1..][..n];
      }
      forall n: nat | PartsBelow(s, t, n) ensures n > 0 && PartsBelow(s[1..], t[1..], n - 1) {
        assert n > 0;
        assert s[1..][..n - 1] == s[..n][1..] && t[1..][..n - 1] == t[..n][1..];
      }
    } else if t != [] && (s == [] || s[0] < t[0]) {
      assert PartsBelow(s, t, 0);
    } else {
      forall n: nat ensures !PartsBelow(s, t, n) {
        if 0 < n <= |s| && n < |t| {
          assert s[..n][0] == s[0] && t[..n][0] == t[0];
        }
      }
    }
  }

  // Symbols compare as their strings do in the dictionary; so they are equal just when
  // their ids are.
  lemma CompareOrders(t: Table, a: Id, b: Id)
    requires Consistent(t) && a as int < |t.strings| && b as int < |t.strings|
    ensures Compare(t, a, b) == CompareText(t.strings[a], t.strings[b])
    ensures Compare(t, a, b) == 0 <==> a == b
    ensures Compare(t, a, b) < 0 <==> Before(t.strings[a], t.strings[b])
    ensures Compare(t, a, b) > 0 <==> Before(t.strings[b], t.strings[a])
  {
    CompareTextOrders(t.strings[a], t.strings[b]);
    CompareTextSign(t.strings[a], t.strings[b]);
    CompareTextSign(t.strings[b], t.strings[a]);
    assert t.index[t.strings[a]] == a && t.index[t.strings[b]] == b;
  }

  // ----- Threads -----

  // A thread is between calls, or has missed the first probe and let go of the
  // shared lock: any other thread may run before it takes the exclusive lock.
  datatype Thread = Idle | Missed(s: Text)

  // A call of internalize that has returned.
  datatype Call = Call(s: Text, id: Id)

  datatype State = State(table: Table, threads: seq<Thread>, returned: seq<Call>)

  // An idle thread calls internalize and probes under the shared lock; a thread
  // that missed takes the exclusive lock.
  datatype Event = Probe(thread: nat, s: Text) | Exclusive(thread: nat)

  // An event that is not possible in a state leaves it alone.
  function Step(st: State, e: Event): State {
    if e.thread >= |st.threads| then st
    else match e
      case Probe(i, s) =>
        if st.threads[i] != Idle then st
        else if s == [] then st.(returned := st.returned + [Call(s, 0)])
        else if s in st.table.index then st.(returned := st.returned + [Call(s, st.table.index[s])])
        else st.(threads := st.threads[i := Missed(s)])
      case Exclusive(i) =>
        if st.threads[i] == Idle then st
        else
          var (table, id) := Commit(st.table, st.threads[i].s);
          State(table, st.threads[i := Idle], st.returned + [Call(st.threads[i].s, id)])
  }

  function Run(st: State, events: seq<Event>): State
    decreases |events|
  {
    if events == [] then st else Run(Step(st, events[0]), events[1..])
  }

  function Start(threads: nat): State {
    State(EMPTY, seq(threads, i => Idle), [])
  }

  // A consistent table that answers every returned call as it was answered.
  ghost predicate Sound(st: State) {
    && Consistent(st.table)
    && (forall c :: c in st.returned ==> c.id as int < |st.table.strings| && st.table.strings[c.id] == c.s)
  }

  ghost predicate Later(st': State, st: State) {
    Extends(st'.table, st.table) && st.returned <= st'.returned
  }

  lemma StepGrows(st: State, e: Event)
    ensures Later(Step(st, e), st)
  {
  }

  lemma StepSound(st: State, e: Event)
    requires Sound(st) && |Step(st, e).table.strings| <= ID_LIMIT
    ensures Sound(Step(st, e))
  {
    if e.Exclusive? && e.thread < |st.threads| && st.threads[e.thread] != Idle {
      var s := st.threads[e.thread].s;
      CommitConsistent(st.table, s);
      CommitResult(st.table, s);
    }
  }

  lemma {:induction false} RunGrows(st: State, events: seq<Event>)
    ensures Later(Run(st, events), st)
    decreases |events|
  {
    if events != [] {
      StepGrows(st, events[0]);
      RunGrows(Step(st, events[0]), events[1..]);
    }
  }

  lemma {:induction false} RunSound(st: State, events: seq<Event>)
    requires Sound(st) && |Run(st, events).table.strings| <= ID_LIMIT
    ensures Sound(Run(st, events))
    decreases |events|
  {
    if events != [] {
      RunGrows(Step(st, events[0]), events[1..]);
      StepSound(st, events[0]);
      RunSound(Step(st, events[0]), events[1..]);
    }
  }

  lemma {:induction false} RunConcat(st: State, first: seq<Event>, more: seq<Event>)
    ensures Run(st, first + more) == Run(Run(st, first), more)
    decreases |first|
  {
    if first == [] {
      assert first + more == more;
    } else {
      RunConcat(Step(st, first[0]), first[1..], more);
      assert (first + more)[1..] == first[1..] + more;
    }
  }

  // In every interleaving: two calls that have returned gave the same id exactly
  // when they were given the same string, and the id of every call returned at
  // any time resolves to its string at every later time.
  lemma InterningIsSound(threads: nat, first: seq<Event>, more: seq<Event>)
    requires |Run(Start(threads), first + more).table.strings| <= ID_LIMIT
    ensures var mid, end := Run(Start(threads), first), Run(Start(threads), first + more);
            && Consistent(mid.table) && Consistent(end.table) && Later(end, mid)
            && (forall c, d :: c in end.returned && d in end.returned ==> (c.id == d.id <==> c.s == d.s))
            && (forall c :: c in mid.returned ==>
                  c.id as int < |end.table.strings| && Resolved(end.table, c.id) == c.s)
  {
    var start := Start(threads);
    RunConcat(start, first, more);
    RunGrows(Run(start, first), more);
    RunSound(start, first);
    RunSound(start, first + more);
    var end := Run(start, first + more);
    forall c, d | c in end.returned && d in end.returned
      ensures c.id == d.id <==> c.s == d.s
    {
      assert end.table.index[end.table.strings[c.id]] == c.id;
      assert end.table.index[end.table.strings[d.id]] == d.id;
    }
    forall c | c in Run(start, first).returned
      ensures c.id as int < |end.table.strings| && end.table.strings[c.id] == c.s
    {
      assert c in end.returned;
    }
  }

  // Both racers missed the first probe: whatever other threads do in between, the
  // second finds the first one's entry, and adds nothing.
  lemma RacersAgree(st: State, i: nat, between: seq<Event>, j: nat, s: Text)
    requires i < |st.threads| && st.threads[i] == Missed(s)
    requires var mid := Run(Step(st, Exclusive(i)), between);
             j < |mid.threads| && mid.threads[j] == Missed(s)
    ensures var first := Step(st, Exclusive(i));
            var mid := Run(first, between);
            var end := Step(mid, Exclusive(j));
            && |first.returned| == |st.returned| + 1 && |end.returned| == |mid.returned| + 1
            && end.returned[|mid.returned|] == first.returned[|st.returned|]
            && end.table == mid.table
  {
    RunGrows(Step(st, Exclusive(i)), between);
  }

  // ----- What the calls come to -----

  function One(b: bool): nat {
    if b then 1 else 0
  }

  // How many threads are at s, how many calls were about it, and how many asked for it.
  function Pending(threads: seq<Thread>, s: Text): nat {
    if threads == [] then 0 else One(threads[0] == Missed(s)) + Pending(threads[1..], s)
  }

  function Answered(calls: seq<Call>, s: Text): nat {
    if calls == [] then 0 else One(calls[0].s == s) + Answered(calls[1..], s)
  }

  function Asked(st: State, events: seq<Event>, s: Text): nat
    decreases |events|
  {
    if events == [] then 0 else One(Asks(st, events[0], s)) + Asked(Step(st, events[0]), events[1..], s)
  }

  predicate Asks(st: State, e: Event, s: Text) {
    e.thread < |st.threads| && st.threads[e.thread] == Idle && e == Probe(e.thread, s)
  }

  lemma {:induction false} PendingUpdate(threads: seq<Thread>, i: nat, t: Thread, s: Text)
    requires i < |threads|
    ensures Pending(threads[i := t], s) + One(threads[i] == Missed(s)) ==
            Pending(threads, s) + One(t == Missed(s))
  {
    if i == 0 {
      assert threads[0 := t][1..] == threads[1..];
    } else {
      PendingUpdate(threads[1..], i - 1, t, s);
      assert threads[i := t][1..] == threads[1..][i - 1 := t];
    }
  }

  lemma {:induction false} AnsweredMore(calls: seq<Call>, c: Call, s: Text)
    ensures Answered(calls + [c], s) == Answered(calls, s) + One(c.s == s)
  {
    if calls == [] {
      assert [c][1..] == [];
    } else {
      AnsweredMore(calls[1..], c, s);
      assert (calls + [c])[1..] == calls[1..] + [c];
    }
  }

  // What is known was once returned.
  ghost predicate Accounted(st: State) {
    forall s :: s in st.table.index ==> s == [] || exists c :: c in st.returned && c.s == s
  }

  lemma StepAccounts(st: State, e: Event, s: Text)
    ensures Answered(st.returned, s) + Pending(st.threads, s) + One(Asks(st, e, s)) ==
            Answered(Step(st, e).returned, s) + Pending(Step(st, e).threads, s)
  {
    hide Pending, Answered, Commit;
    var st', i := Step(st, e), e.thread;
    if i < |st.threads| {
      if st'.returned != st.returned {
        AnsweredMore(st.returned, st'.returned[|st.returned|], s);
      }
      PendingUpdate(st.threads, i, st'.threads[i], s);
      assert st'.threads == st.threads[i := st'.threads[i]];
    }
  }

  lemma StepAccounted(st: State, e: Event)
    requires Accounted(st)
    ensures Accounted(Step(st, e))
  {
    var st' := Step(st, e);
    if st'.table != st.table {
      assert st'.returned[|st.returned|] in st'.returned;
    }
    forall s | s in st'.table.index ensures s == [] || exists c :: c in st'.returned && c.s == s {
      if s in st.table.index && s != [] {
        var c :| c in st.returned && c.s == s;
        assert c in st'.returned;
      }
    }
  }

  lemma {:induction false} RunAccounts(st: State, events: seq<Event>, s: Text)
    requires Accounted(st)
    ensures Answered(st.returned, s) + Pending(st.threads, s) + Asked(st, events, s) ==
            Answered(Run(st, events).returned, s) + Pending(Run(st, events).threads, s)
    ensures Accounted(Run(st, events))
    decreases |events|
  {
    hide Pending, Answered, Asks, Accounted, Step;
    if events != [] {
      StepAccounts(st, events[0], s);
      StepAccounted(st, events[0]);
      RunAccounts(Step(st, events[0]), events[1..], s);
    }
  }

  lemma {:induction false} NothingPending(n: nat, s: Text)
    ensures Pending(seq(n, i => Idle), s) == 0
  {
    if n > 0 {
      NothingPending(n - 1, s);
      assert seq(n, i => Idle)[1..] == seq(n - 1, i => Idle);
    }
  }

  // In every interleaving: of the calls for a string each has been answered once, for
  // that string, or is still under way; and the table holds no string but the empty
  // one and those of calls that were answered.
  lemma CallsAreAnswered(threads: nat, events: seq<Event>, s: Text)
    ensures var end := Run(Start(threads), events);
            && Asked(Start(threads), events, s) == Answered(end.returned, s) + Pending(end.threads, s)
            && (s in end.table.index ==> s == [] || exists c :: c in end.returned && c.s == s)
  {
    NothingPending(threads, s);
    RunAccounts(Start(threads), events, s);
  }

  // ----- The code -----

  class SymbolServer {
    var strings: seq<Text>
    var index: map<Text, Id>

    // insert_defaults
    constructor ()
      ensures Value() == EMPTY
    {
      strings := [[]];
      index := map[[] := 0];
    }

    function Value(): Table
      reads this
    {
      Table(strings, index)
    }

    ghost predicate Valid()
      reads this
    {
      Consistent(Value()) && |strings| <= ID_LIMIT
    }

    // check_internalization; also Symbol::maybe, which keeps only the id.
    method CheckInternalization(s: Text) returns (found: bool, id: Id)
      requires Valid()
      ensures found <==> s in index
      ensures id == if s in index then index[s] else 0
    {
      if s == [] {
        assert strings[0] in index;
        return true, 0;
      }
      if s in index {
        return true, index[s];
      }
      return false, 0;
    }

    // The first half of internalize, under the shared lock.
    method Probe(s: Text) returns (hit: bool, id: Id)
      ensures hit <==> s in index
      ensures hit ==> id == index[s]
    {
      hit, id := s in index, 0;
      if hit {
        id := index[s];
      }
    }

    // The second half, under the exclusive lock, whatever other threads have done
    // since the probe.
    method Exclusive(s: Text) returns (id: Id)
      modifies this
      ensures (Value(), id) == Commit(old(Value()), s)
    {
      if s in index {
        return index[s];
      }
      id := (|strings| % ID_LIMIT) as Id;
      strings := strings + [s];
      index := index[s := id];
    }

    // internalize, when no other thread runs between its two halves.
    method Internalize(s: Text) returns (id: Id)
      requires Valid() && (s in index || |strings| < ID_LIMIT)
      modifies this
      ensures (Value(), id) == Commit(old(Value()), s)
      ensures Valid() && Extends(Value(), old(Value()))
      ensures s in index && index[s] == id && id as int < |strings| && strings[id] == s
      ensures s != [] ==> id > 0
    {
      CommitConsistent(Value(), s);
      CommitResult(Value(), s);
      assert strings[0] in index;
      if s == [] {
        return 0;
      }
      var hit;
      hit, id := Probe(s);
      if hit {
        return;
      }
      id := Exclusive(s);
    }

    method Resolve(id: Id) returns (s: Text)
      ensures s == Resolved(Value(), id)
      ensures id as int >= |strings| ==> s == INVALID_SYMBOL
      ensures Valid() ==> (id as int < |strings| <==> exists known :: known in index && index[known] == id)
      ensures Valid() && id as int < |strings| ==> s in index && index[s] == id
    {
      if |strings| > id as int {
        return strings[id];
      } else {
        return INVALID_SYMBOL;
      }
    }
  }
}
