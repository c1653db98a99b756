// The worker threads of src/lib/server.cpp and the ticker that tells them in turn to
// do maintenance: a protocol over the list of threads and the lock that guards it.
module Tickers {
  // size_t
  newtype Size = s: int | 0 <= s < 0x1_0000_0000_0000_0000
  const SIZE_LIMIT: nat := 0x1_0000_0000_0000_0000
  // size_t(-1)
  const NO_INDEX: Size := 0xffff_ffff_ffff_ffff

  // A ticker is numbered by creation, a worker has the id it was given.
  datatype Thread = Ticker(number: nat) | Worker(id: nat)

  // How far a ticker is: waiting for the lock for the first time, in its loop, or done.
  datatype Phase = Starting | Looping(triggerIndex: Size) | Finished

  // killing: kill_threads holds the lock, from its signals to the end of its joins.
  // ended: the workers that are done. signals: the threads the tickers have signalled.
  datatype State = State(threads: seq<Thread>, lastThreadId: nat, tickers: seq<Phase>,
                         ended: set<nat>, killing: bool, signals: seq<Thread>)

  // ----- The steps -----

  function Workers(from: nat, count: nat): seq<Thread> {
    seq(count, i requires 0 <= i < count => Worker(from + 1 + i))
  }

  // The next index: the modulus is the size of the list, and index 0 is the ticker.
  function Advance(triggerIndex: Size, size: nat): Size
    requires 0 < size < SIZE_LIMIT
  {
    var next := ((triggerIndex as int + 1) % SIZE_LIMIT) % size;
    if next == 0 then 1 else next as Size
  }

  // std::next from the beginning of the list, and whom it finds there.
  function At(threads: seq<Thread>, index: Size): seq<Thread> {
    if index as int < |threads| then [threads[index]] else []
  }

  datatype Event =
    | AddThreads(count: nat)
    | KillBegins
    | KillEnds
    | TickerStarts(number: nat)
    | Tick(number: nat)
    | TickerFinishes(number: nat)
    | WorkerEnds(id: nat)

  predicate Free(s: State) {
    !s.killing
  }

  predicate InPhase(s: State, number: nat, looping: bool) {
    number < |s.tickers| && (if looping then s.tickers[number].Looping? else s.tickers[number].Starting?)
  }

  predicate Joinable(s: State, t: Thread) {
    match t
    case Ticker(number) => number < |s.tickers| && s.tickers[number].Finished?
    case Worker(id) => id in s.ended
  }

  // When an event can happen: what takes the lock waits for it, or gives up; kill_threads
  // lets go of it when every thread of the list has been joined; a ticker ends when it
  // was told to; a worker ends when it was told to, or of itself.
  predicate Enabled(s: State, e: Event) {
    match e
    case AddThreads(count) => Free(s) && |s.threads| + count + 1 < SIZE_LIMIT
    case KillBegins => Free(s)
    case KillEnds => s.killing && forall t :: t in s.threads ==> Joinable(s, t)
    case TickerStarts(number) => Free(s) && InPhase(s, number, false)
    case Tick(number) => Free(s) && InPhase(s, number, true)
    case TickerFinishes(number) => s.killing && InPhase(s, number, true) && Ticker(number) in s.threads
    case WorkerEnds(id) => Worker(id) in s.threads && id !in s.ended
  }

  function After(s: State, e: Event): State
    requires Enabled(s, e)
  {
    match e
    case AddThreads(count) =>
      var first := s.threads == [];
      s.(threads := (if first then [Ticker(|s.tickers|)] else s.threads) + Workers(s.lastThreadId, count),
         lastThreadId := s.lastThreadId + count,
         tickers := if first then s.tickers + [Starting] else s.tickers)
    case KillBegins => s.(killing := true)
    case KillEnds => s.(threads := [], killing := false)
    case TickerStarts(number) => s.(tickers := s.tickers[number := Looping(NO_INDEX)])
    case Tick(number) =>
      if !(0 < |s.threads| < SIZE_LIMIT) then s
      else
        var index := Advance(s.tickers[number].triggerIndex, |s.threads|);
        s.(tickers := s.tickers[number := Looping(index)], signals := s.signals + At(s.threads, index))
    case TickerFinishes(number) => s.(tickers := s.tickers[number := Finished])
    case WorkerEnds(id) => s.(ended := s.ended + {id})
  }

  const NOTHING_STARTED := State([], 0, [], {}, false, [])

  ghost predicate IsRun(states: seq<State>, events: seq<Event>) {
    && |states| == |events| + 1 && states[0] == NOTHING_STARTED
    && forall i :: 0 <= i < |events| ==> Enabled(states[i], events[i]) && states[i + 1] == After(states[i], events[i])
  }

  // ----- What every run keeps -----

  // A list that is not empty starts with the newest ticker, and workers follow. A
  // ticker that is not finished is the one at the head of the list. Its index is
  // size_t(-1), or that of a worker, or 1 while there are no workers.
  ghost predicate Orderly(s: State) {
    && |s.threads| < SIZE_LIMIT
    && (s.threads != [] ==> s.tickers != [] && s.threads[0] == Ticker(|s.tickers| - 1))
    && (forall i :: 1 <= i < |s.threads| ==> s.threads[i].Worker? && s.threads[i].id <= s.lastThreadId)
    && (forall i, j :: 1 <= i < j < |s.threads| ==> s.threads[i].id < s.threads[j].id)
    && (forall t :: 0 <= t < |s.tickers| && s.tickers[t] != Finished ==> s.threads != [] && t == |s.tickers| - 1)
    && (forall t :: 0 <= t < |s.tickers| && s.tickers[t].Looping? ==> InTurn(s.tickers[t].triggerIndex, |s.threads|))
  }

  predicate InTurn(index: Size, size: nat) {
    index == NO_INDEX || index == 1 || 1 <= index as int < size
  }

  lemma SmallRemainder(x: nat, n: nat)
    requires x <= n && 0 < n
    ensures x % n == if x < n then x else 0
  {
  }

  lemma AdvanceInTurn(index: Size, size: nat)
    requires 0 < size < SIZE_LIMIT && InTurn(index, size)
    ensures InTurn(Advance(index, size), size)
    ensures 1 <= Advance(index, size) as int <= size
    ensures size > 1 ==>
              Advance(index, size) as int ==
              if index == NO_INDEX || index as int == size - 1 then 1 else index as int + 1
  {
    SmallRemainder(index as int + 1, SIZE_LIMIT);
    var next := (index as int + 1) % SIZE_LIMIT;
    if next <= size {
      SmallRemainder(next, size);
    } else {
      assert size == 1 && next == 2;
    }
  }

  lemma OrderlyStep(s: State, e: Event)
    requires Orderly(s) && Enabled(s, e)
    ensures Orderly(After(s, e))
  {
    hide Advance;
    match e
    case Tick(number) => AdvanceInTurn(s.tickers[number].triggerIndex, |s.threads|);
    case KillEnds => assert s.threads != [] ==> Joinable(s, s.threads[0]);
    case _ =>
  }

  lemma {:induction false} AlwaysOrderly(states: seq<State>, events: seq<Event>, i: nat)
    requires IsRun(states, events) && i <= |events|
    ensures Orderly(states[i])
  {
    if i > 0 {
      AlwaysOrderly(states, events, i - 1);
      assert Enabled(states[i - 1], events[i - 1]);
      OrderlyStep(states[i - 1], events[i - 1]);
    }
  }

  // Whenever a ticker takes the modulus the list is not empty, and the ticker is the
  // one at its head; it never signals itself, only a worker, and never steps past
  // the end of the list.
  lemma TickIsSafe(states: seq<State>, events: seq<Event>, i: nat)
    requires IsRun(states, events) && i < |events| && events[i].Tick?
    ensures var s, number := states[i], events[i].number;
            && InPhase(s, number, true) && 0 < |s.threads| < SIZE_LIMIT && s.threads[0] == Ticker(number)
            && var index := Advance(s.tickers[number].triggerIndex, |s.threads|);
               && 1 <= index as int <= |s.threads|
               && (index as int == |s.threads| <==> |s.threads| == 1)
               && states[i + 1].signals == s.signals + At(s.threads, index)
               && (|s.threads| == 1 ==> states[i + 1].signals == s.signals)
               && forall t :: t in At(s.threads, index) ==> t.Worker?
  {
    hide Advance;
    AlwaysOrderly(states, events, i);
    var s, number := states[i], events[i].number;
    assert Enabled(s, events[i]);
    AdvanceInTurn(s.tickers[number].triggerIndex, |s.threads|);
  }

  // ----- What the list holds -----

  // Adding keeps the list, puts a new ticker into an empty one, and appends as many
  // workers as asked for, with the ids that follow the last one given.
  ghost predicate Added(s: State, s': State, count: nat) {
    var first := if s.threads == [] then [Ticker(|s.tickers|)] else s.threads;
    && |s'.threads| == |first| + count
    && (forall i :: 0 <= i < |first| ==> s'.threads[i] == first[i])
    && (forall i :: |first| <= i < |s'.threads| ==> s'.threads[i] == Worker(s.lastThreadId + i - |first| + 1))
    && s'.lastThreadId == s.lastThreadId + count
    && s'.tickers == (if s.threads == [] then s.tickers + [Starting] else s.tickers)
    && s'.ended == s.ended && s'.killing == s.killing && s'.signals == s.signals
  }

  lemma AddedByAddThreads(s: State, count: nat)
    requires Enabled(s, AddThreads(count))
    ensures Added(s, After(s, AddThreads(count)), count)
  {
    var first := if s.threads == [] then [Ticker(|s.tickers|)] else s.threads;
    assert After(s, AddThreads(count)).threads == first + Workers(s.lastThreadId, count);
  }

  // How many threads were asked for.
  function Asked(events: seq<Event>): nat {
    if events == [] then 0
    else
      var last := events[|events| - 1];
      Asked(events[..|events| - 1]) + if last.AddThreads? then last.count else 0
  }

  // A list that was empty when from workers had been started, and to which as many
  // were added as there are from then on.
  predicate Holds(threads: seq<Thread>, from: nat, to: nat, added: bool) {
    if added then
      from <= to && |threads| == to - from + 1 && threads[0].Ticker?
      && forall i :: 1 <= i < |threads| ==> threads[i] == Worker(from + i)
    else
      threads == [] && from == to
  }

  lemma {:induction false} IdsAreWhatWasAsked(states: seq<State>, events: seq<Event>, i: nat)
    requires IsRun(states, events) && i <= |events|
    ensures states[i].lastThreadId == Asked(events[..i])
  {
    hide At, Advance, Workers;
    if i > 0 {
      assert events[..i][..i - 1] == events[..i - 1] && events[..i][i - 1] == events[i - 1];
      IdsAreWhatWasAsked(states, events, i - 1);
      assert Enabled(states[i - 1], events[i - 1]);
    }
  }

  // On every run, from the start or from any end of a kill_threads to the next: the
  // list is empty until threads are added; then it is a ticker and exactly the workers
  // asked for since, numbered on from those asked for before.
  lemma {:induction false} ListIsWhatWasAsked(states: seq<State>, events: seq<Event>, k: nat, i: nat)
    requires IsRun(states, events) && k <= i <= |events| && (k == 0 || events[k - 1].KillEnds?)
    requires forall n :: k <= n < i ==> !events[n].KillEnds?
    ensures Holds(states[i].threads, Asked(events[..k]), Asked(events[..i]),
                  exists n :: k <= n < i && events[n].AddThreads?)
    decreases i
  {
    hide Added, Workers, At, Advance, Holds, Asked;
    if i > 0 {
      var s, e := states[i - 1], events[i - 1];
      assert Enabled(s, e) && states[i] == After(s, e);
      IdsAreWhatWasAsked(states, events, i - 1);
      IdsAreWhatWasAsked(states, events, i);
      if k < i {
        ListIsWhatWasAsked(states, events, k, i - 1);
        if e.AddThreads? {
          AddedByAddThreads(s, e.count);
          HoldsMore(s, states[i], e.count, Asked(events[..k]), exists n :: k <= n < i - 1 && events[n].AddThreads?);
        }
      }
    }
    if k == i {
      HoldsNothing(Asked(events[..k]));
    }
  }

  lemma HoldsNothing(from: nat)
    ensures Holds([], from, from, false)
  {
  }

  lemma HoldsMore(s: State, s': State, count: nat, from: nat, added: bool)
    requires Added(s, s', count) && Holds(s.threads, from, s.lastThreadId, added)
    ensures Holds(s'.threads, from, s'.lastThreadId, true)
  {
    assert added ==> s'.threads[0] == s.threads[0];
  }

  // While kill_threads holds the lock, threads end and nothing else happens, and when
  // it lets go every thread that was in the list has ended.
  lemma {:induction false} KillingExcludes(states: seq<State>, events: seq<Event>, i: nat, j: nat)
    requires IsRun(states, events) && i < j <= |events| && events[i].KillBegins?
    requires forall k :: i < k < j ==> !events[k].KillEnds?
    ensures forall k :: i < k < j ==> events[k].TickerFinishes? || events[k].WorkerEnds?
    ensures states[j] == states[i].(tickers := states[j].tickers, ended := states[j].ended, killing := true)
    ensures j < |events| && events[j].KillEnds? ==>
              && (forall t :: t in states[i].threads ==> Joinable(states[j], t))
              && states[j + 1] == states[j].(threads := [], killing := false)
  {
    hide At, Advance, Workers, Joinable;
    if i + 1 < j {
      KillingExcludes(states, events, i, j - 1);
      assert Enabled(states[j - 1], events[j - 1]) && states[j] == After(states[j - 1], events[j - 1]);
    } else {
      assert Enabled(states[i], events[i]) && states[j] == After(states[i], events[i]);
    }
    if j < |events| && events[j].KillEnds? {
      assert Enabled(states[j], events[j]) && states[j + 1] == After(states[j], events[j]);
    }
  }

  // ----- Fairness -----

  // The place k turns after place base, among n in a circle; places are 1 to n, and
  // base 0 is just before the first.
  function Turn(base: nat, k: nat, n: nat): (place: nat)
    requires base <= n && 1 <= k <= n
    ensures 1 <= place <= n
  {
    if base + k > n then base + k - n else base + k
  }

  // The workers signalled by k ticks from base.
  function Round(threads: seq<Thread>, base: nat, k: nat): seq<Thread>
    requires base < |threads| && k < |threads|
  {
    seq(k, i requires 0 <= i < k => threads[Turn(base, i + 1, |threads| - 1)])
  }

  // A whole round signals every worker exactly once.
  lemma RoundIsFair(threads: seq<Thread>, base: nat)
    requires base < |threads|
    ensures multiset(Round(threads, base, |threads| - 1)) == multiset(threads[1..])
  {
    var n := |threads| - 1;
    var workers := threads[1..];
    assert Round(threads, base, n) == workers[base..] + workers[..base];
    assert workers == workers[..base] + workers[base..];
  }

  predicate KeepsThreads(e: Event) {
    !e.AddThreads? && !e.KillEnds?
  }

  function Ticks(events: seq<Event>): nat {
    if events == [] then 0 else Ticks(events[..|events| - 1]) + if events[|events| - 1].Tick? then 1 else 0
  }

  // Where a live ticker is in the circle.
  function Base(p: Phase): nat {
    match p
    case Looping(index) => if index == NO_INDEX then 0 else index as int
    case _ => 0
  }

  // From state i to state j the list of threads stays: it is as if its ticker had
  // gone round the circle by as many places as there were ticks.
  ghost predicate RoundAt(s: State, s': State, ticks: nat)
  {
    && |s.threads| > 1 && s.tickers != [] && |s'.tickers| == |s.tickers| && s'.threads == s.threads
    && var n, last := |s.threads| - 1, |s.tickers| - 1;
       var base := Base(s.tickers[last]);
       && base <= n && ticks <= n
       && s'.signals == s.signals + Round(s.threads, base, ticks)
       && (s'.tickers[last].Looping? ==>
            Base(s'.tickers[last]) == if ticks == 0 then base else Turn(base, ticks, n))
       && (s'.tickers[last].Starting? ==> s.tickers[last].Starting? && ticks == 0)
  }

  // One tick goes to the next place.
  lemma NextTurn(index: Size, base: nat, k: nat, size: nat)
    requires 1 < size < SIZE_LIMIT && InTurn(index, size) && base < size && k + 1 < size
    requires Base(Looping(index)) == if k == 0 then base else Turn(base, k, size - 1)
    ensures Advance(index, size) as int == Turn(base, k + 1, size - 1)
    ensures Base(Looping(Advance(index, size))) == Turn(base, k + 1, size - 1)
  {
    hide Advance;
    AdvanceInTurn(index, size);
  }

  lemma RoundGrows(threads: seq<Thread>, base: nat, k: nat)
    requires base < |threads| && k + 1 < |threads|
    ensures Round(threads, base, k + 1) == Round(threads, base, k) + [threads[Turn(base, k + 1, |threads| - 1)]]
  {
  }

  lemma TickRound(s: State, s1: State, number: nat, ticks: nat)
    requires RoundAt(s, s1, ticks) && Orderly(s1) && Enabled(s1, Tick(number)) && ticks + 1 < |s.threads|
    ensures RoundAt(s, After(s1, Tick(number)), ticks + 1)
  {
    hide Advance, Turn, Round;
    var index := s1.tickers[number].triggerIndex;
    var base := Base(s.tickers[|s.tickers| - 1]);
    assert number == |s.tickers| - 1;
    NextTurn(index, base, ticks, |s.threads|);
    RoundGrows(s.threads, base, ticks);
    assert At(s.threads, Advance(index, |s.threads|)) == [s.threads[Turn(base, ticks + 1, |s.threads| - 1)]];
    assert After(s1, Tick(number)).signals == s.signals + Round(s.threads, base, ticks + 1);
  }

  lemma RoundStep(s: State, s1: State, e: Event, ticks: nat)
    requires RoundAt(s, s1, ticks) && Orderly(s1) && Enabled(s1, e) && KeepsThreads(e)
    requires ticks + (if e.Tick? then 1 else 0) < |s.threads|
    ensures RoundAt(s, After(s1, e), ticks + if e.Tick? then 1 else 0)
  {
    hide Advance, Turn, Round;
    match e
    case Tick(number) => TickRound(s, s1, number, ticks);
    case _ =>
  }

  lemma {:induction false} RoundOfRun(states: seq<State>, events: seq<Event>, i: nat, j: nat)
    requires IsRun(states, events) && i <= j <= |events| && |states[i].threads| > 1
    requires forall k :: i <= k < j ==> KeepsThreads(events[k])
    requires Ticks(events[i..j]) < |states[i].threads|
    ensures RoundAt(states[i], states[j], Ticks(events[i..j]))
    decreases j
  {
    hide Round, Turn, After, Enabled, RoundAt, Orderly;
    AlwaysOrderly(states, events, i);
    if i == j {
      RoundStarts(states[i]);
    } else {
      assert events[i..j][..j - i - 1] == events[i..j - 1] && events[i..j][j - i - 1] == events[j - 1];
      RoundOfRun(states, events, i, j - 1);
      AlwaysOrderly(states, events, j - 1);
      RoundStep(states[i], states[j - 1], events[j - 1], Ticks(events[i..j - 1]));
    }
  }

  lemma RoundStarts(s: State)
    requires Orderly(s) && |s.threads| > 1
    ensures RoundAt(s, s, 0)
  {
    assert Round(s.threads, Base(s.tickers[|s.tickers| - 1]), 0) == [];
    assert s.signals + [] == s.signals;
  }

  lemma {:induction false} OnceEach(ts: seq<Thread>)
    requires forall i, j :: 0 <= i < j < |ts| ==> ts[i] != ts[j]
    ensures forall t :: t in ts ==> multiset(ts)[t] == 1
  {
    if ts != [] {
      OnceEach(ts[1..]);
      assert ts == [ts[0]] + ts[1..];
      assert ts[0] !in ts[1..];
    }
  }

  // While there are n workers and the list of threads stays, n ticks in a row signal
  // every worker exactly once, at whatever point of whatever run they start.
  lemma {:induction false} EveryWorkerOnce(states: seq<State>, events: seq<Event>, i: nat, j: nat)
    requires IsRun(states, events) && i <= j <= |events| && |states[i].threads| > 1
    requires forall k :: i <= k < j ==> KeepsThreads(events[k])
    requires Ticks(events[i..j]) == |states[i].threads| - 1
    ensures states[j].threads == states[i].threads
    ensures states[i].signals <= states[j].signals
    ensures multiset(states[j].signals[|states[i].signals|..]) == multiset(states[i].threads[1..])
    ensures forall t :: t in states[i].threads[1..] ==> multiset(states[j].signals[|states[i].signals|..])[t] == 1
  {
    hide Round, Turn, After, Enabled;
    AlwaysOrderly(states, events, i);
    OnceEach(states[i].threads[1..]);
    RoundOfRun(states, events, i, j);
    var s := states[i];
    var base := Base(s.tickers[|s.tickers| - 1]);
    RoundIsFair(s.threads, base);
    assert states[j].signals[|s.signals|..] == Round(s.threads, base, |s.threads| - 1);
  }

  // The first ticks of a new ticker signal the workers in their order in the list.
  lemma {:induction false} FirstRound(states: seq<State>, events: seq<Event>, i: nat, j: nat)
    requires IsRun(states, events) && i <= j <= |events| && |states[i].threads| > 1 && Waiting(states[i])
    requires forall k :: i <= k < j ==> KeepsThreads(events[k])
    requires Ticks(events[i..j]) < |states[i].threads|
    ensures states[j].signals == states[i].signals + states[i].threads[1..Ticks(events[i..j]) + 1]
  {
    hide After, Enabled;
    RoundOfRun(states, events, i, j);
    var n := Ticks(events[i..j]);
    assert Round(states[i].threads, 0, n) == states[i].threads[1..n + 1];
  }

  // ----- Shutdown -----

  // The events can happen one after the other from s on.
  predicate Possible(s: State, events: seq<Event>)
    decreases |events|
  {
    events == [] || (Enabled(s, events[0]) && Possible(After(s, events[0]), events[1..]))
  }

  function End(s: State, events: seq<Event>): State
    requires Possible(s, events)
    decreases |events|
  {
    if events == [] then s else End(After(s, events[0]), events[1..])
  }

  // Something can happen by which kill_threads gets to its end.
  ghost predicate CanEnd(s: State) {
    exists events :: Possible(s, events) && Enabled(End(s, events), KillEnds)
  }

  // The ticker has not been through its first lock.
  predicate Waiting(s: State) {
    s.threads != [] && s.tickers != [] && s.tickers[|s.tickers| - 1].Starting?
  }

  // Then nothing but workers ends any more.
  lemma WaitingStays(s: State, e: Event)
    requires Orderly(s) && s.killing && Waiting(s) && Enabled(s, e)
    ensures e.WorkerEnds?
    ensures Orderly(After(s, e)) && After(s, e).killing && Waiting(After(s, e))
  {
    assert s.threads[0] in s.threads;
    OrderlyStep(s, e);
  }

  lemma {:induction false} WaitingForEver(s: State, events: seq<Event>)
    requires Orderly(s) && s.killing && Waiting(s) && Possible(s, events)
    ensures !Enabled(End(s, events), KillEnds)
    decreases |events|
  {
    hide Orderly;
    if events == [] {
      WaitingCannotEnd(s);
    } else {
      WaitingStays(s, events[0]);
      WaitingForEver(After(s, events[0]), events[1..]);
    }
  }

  lemma WaitingCannotEnd(s: State)
    requires Orderly(s) && Waiting(s)
    ensures !Enabled(s, KillEnds)
  {
    assert s.threads[0] in s.threads;
  }

  // Otherwise the ticker can end, and the workers one by one.
  lemma {:induction false} WorkersEnd(s: State, i: nat) returns (events: seq<Event>)
    requires Orderly(s) && s.killing && i <= |s.threads|
    requires forall k :: 0 <= k < i ==> Joinable(s, s.threads[k])
    requires i == 0 ==> s.threads == []
    ensures Possible(s, events) && Enabled(End(s, events), KillEnds)
    decreases |s.threads| - i
  {
    events := [];
    if i < |s.threads| {
      var e := WorkerEnds(s.threads[i].id);
      if s.threads[i].id in s.ended {
        events := WorkersEnd(s, i + 1);
      } else {
        assert s.threads[i] in s.threads;
        OrderlyStep(s, e);
        events := WorkersEnd(After(s, e), i + 1);
        assert ([e] + events)[1..] == events;
        events := [e] + events;
      }
    }
  }

  lemma {:induction false} AllEnd(s: State) returns (events: seq<Event>)
    requires Orderly(s) && s.killing && !Waiting(s)
    ensures Possible(s, events) && Enabled(End(s, events), KillEnds)
  {
    if s.threads == [] {
      events := WorkersEnd(s, 0);
    } else if s.tickers[|s.tickers| - 1].Finished? {
      events := WorkersEnd(s, 1);
    } else {
      var e := TickerFinishes(|s.tickers| - 1);
      assert s.threads[0] in s.threads;
      OrderlyStep(s, e);
      events := WorkersEnd(After(s, e), 1);
      assert ([e] + events)[1..] == events;
      events := [e] + events;
    }
  }

  // On every run: kill_threads can get to its end, workers ending when told to, if and
  // only if the ticker it has to join has been through its first lock. That one waits
  // for kill_threads itself.
  lemma {:induction false} ShutdownEnds(states: seq<State>, events: seq<Event>, i: nat)
    requires IsRun(states, events) && i <= |events| && states[i].killing
    ensures CanEnd(states[i]) <==> !Waiting(states[i])
  {
    hide Orderly, Enabled, Possible, Waiting;
    AlwaysOrderly(states, events, i);
    if Waiting(states[i]) {
      forall more | Possible(states[i], more) ensures !Enabled(End(states[i], more), KillEnds) {
        WaitingForEver(states[i], more);
      }
    } else {
      var _ := AllEnd(states[i]);
    }
  }

  // It does get stuck: in a server shut down before its ticker ran.
  lemma {:induction false} ShutdownHangs(count: nat)
    requires count + 1 < SIZE_LIMIT
    ensures Enabled(NOTHING_STARTED, AddThreads(count))
    ensures var s := After(NOTHING_STARTED, AddThreads(count));
            Enabled(s, KillBegins) && !CanEnd(After(s, KillBegins))
  {
    var s := After(NOTHING_STARTED, AddThreads(count));
    OrderlyStep(NOTHING_STARTED, AddThreads(count));
    OrderlyStep(s, KillBegins);
    forall more | Possible(After(s, KillBegins), more)
      ensures !Enabled(End(After(s, KillBegins), more), KillEnds)
    {
      WaitingForEver(After(s, KillBegins), more);
    }
  }

  // ----- The code -----

  class ThreadList {
    var threads: seq<Thread>
    var lastThreadId: nat
    // The local variables of the tickers' thread functions, which workers are done, and
    // what was signalled.
    var tickers: seq<Phase>
    var ended: set<nat>
    var killing: bool
    var signals: seq<Thread>

    function Value(): State
      reads this
    {
      State(threads, lastThreadId, tickers, ended, killing, signals)
    }

    method AddThreads(count: nat)
      requires Enabled(Value(), Event.AddThreads(count))
      modifies this
      ensures Value() == After(old(Value()), Event.AddThreads(count))
      ensures Added(old(Value()), Value(), count)
    {
      AddedByAddThreads(Value(), count);
      if threads == [] {
        threads, tickers := [Ticker(|tickers|)], tickers + [Starting];
      }
      ghost var first := threads;
      for i := 0 to count
        invariant threads == first + Workers(old(lastThreadId), i) && lastThreadId == old(lastThreadId) + i
        invariant tickers == After(old(Value()), Event.AddThreads(count)).tickers
        invariant ended == old(ended) && killing == old(killing) && signals == old(signals)
      {
        lastThreadId := lastThreadId + 1;
        threads := threads + [Worker(lastThreadId)];
        assert Workers(old(lastThreadId), i + 1) == Workers(old(lastThreadId), i) + [Worker(lastThreadId)];
      }
    }

    // One round of the ticker's loop that got the lock.
    method TickerRound(number: nat)
      requires Enabled(Value(), Tick(number)) && 0 < |threads| < SIZE_LIMIT
      modifies this
      ensures Value() == After(old(Value()), Tick(number))
    {
      var numThreads := |threads|;
      var triggerIndex := tickers[number].triggerIndex as int;
      triggerIndex := (triggerIndex + 1) % SIZE_LIMIT % numThreads;
      if triggerIndex == 0 {
        triggerIndex := 1;
      }
      tickers := tickers[number := Looping(triggerIndex as Size)];
      if triggerIndex != |threads| {
        signals := signals + [threads[triggerIndex]];
      }
    }
  }
}
