/**
 The abortable first-in-first-out semaphore that limits the map client's requests in
 flight (`withRequestSlot` and `acquireRequestSlot` in frontend/src/cafe-provider.ts).

 JavaScript runs one synchronous section at a time, so a run is a sequence of such
 sections: an acquire, an abort listener, and the `finally` block of a finished operation.
 */
module RequestSlots {
  import opened Outcomes

  const MAX_CONCURRENT_REQUESTS := 6

  /** The identity of one acquisition, and of its `start` closure when it has to wait. */
  type Waiter = nat

  /** The two fields, and the set of closures whose `settled` flag is up. */
  datatype Slots = Slots(active: int, waiters: seq<Waiter>, settled: set<Waiter>)

  function IndexOf(s: seq<Waiter>, w: Waiter): (index: int)
    ensures -1 <= index < |s|
    ensures index == -1 <==> w !in s
    ensures index >= 0 ==> s[index] == w && w !in s[..index]
  {
    if s == [] then -1
    else if s[0] == w then 0
    else
      var rest := IndexOf(s[1..], w);
      if rest == -1 then -1
      else
        assert s[..rest + 1] == [s[0]] + s[1..][..rest];
        rest + 1
  }

  function Splice(s: seq<Waiter>, w: Waiter): seq<Waiter> {
    var index := IndexOf(s, w);
    if index >= 0 then s[..index] + s[index + 1..] else s
  }

  /** `acquireRequestSlot`: true when the slot is free at once, else the caller queues. */
  function Acquire(s: Slots, w: Waiter): (Slots, bool) {
    if s.active < MAX_CONCURRENT_REQUESTS then (s.(active := s.active + 1), true)
    else (s.(waiters := s.waiters + [w]), false)
  }

  /** The queued `start` closure; a settled one does nothing. */
  function Start(s: Slots, w: Waiter): (Slots, bool) {
    if w in s.settled then (s, false)
    else (s.(active := s.active + 1, settled := s.settled + {w}), true)
  }

  /** The `finally` block: give the slot up and wake the waiter at the front. */
  function Release(s: Slots): (Slots, Option<Waiter>) {
    var freed := s.(active := s.active - 1);
    if s.waiters == [] then (freed, None)
    else
      var front := s.waiters[0];
      var (woken, granted) := Start(freed.(waiters := s.waiters[1..]), front);
      (woken, if granted then Some(front) else None)
  }

  /** The abort listener of a queued waiter. */
  function Abort(s: Slots, w: Waiter): Slots {
    if w in s.settled then s
    else s.(settled := s.settled + {w}, waiters := Splice(s.waiters, w))
  }

  /** At most six slots in use, and all of them while an unsettled request waits, each in one place. */
  ghost predicate Sound(s: Slots) {
    && 0 <= s.active <= MAX_CONCURRENT_REQUESTS
    && (s.waiters != [] ==> s.active == MAX_CONCURRENT_REQUESTS)
    && NoRepeats(s.waiters)
    && (forall w :: w in s.waiters ==> w !in s.settled)
  }

  class Semaphore {
    var activeRequestCount: int
    var requestWaiters: seq<Waiter>
    var settled: set<Waiter>

    function State(): Slots
      reads this
    {
      Slots(activeRequestCount, requestWaiters, settled)
    }

    constructor ()
      ensures State() == Slots(0, [], {}) && Sound(State())
    {
      activeRequestCount, requestWaiters, settled := 0, [], {};
    }

    method AcquireRequestSlot(w: Waiter) returns (granted: bool)
      modifies this
      ensures (State(), granted) == Acquire(old(State()), w)
      ensures old(Sound(State())) && w !in old(requestWaiters) && w !in old(settled) ==>
                && Sound(State()) && (granted ==> w !in requestWaiters)
                && (!granted ==> activeRequestCount == MAX_CONCURRENT_REQUESTS)
                && (!granted ==> IndexOf(requestWaiters, w) == |old(requestWaiters)|)
    {
      AcquireStaysSound(State(), w);
      if activeRequestCount < MAX_CONCURRENT_REQUESTS {
        activeRequestCount := activeRequestCount + 1;
        return true;
      }
      requestWaiters := requestWaiters + [w];
      granted := false;
    }

    method StartWaiter(w: Waiter) returns (granted: bool)
      modifies this
      ensures (State(), granted) == Start(old(State()), w)
      ensures w in settled && (w in old(settled) ==> !granted && State() == old(State()))
      ensures old(0 <= activeRequestCount < MAX_CONCURRENT_REQUESTS) ==>
                0 <= activeRequestCount <= MAX_CONCURRENT_REQUESTS
    {
      if w in settled { return false; }
      settled := settled + {w};
      activeRequestCount := activeRequestCount + 1;
      granted := true;
    }

    method ReleaseRequestSlot() returns (woken: Option<Waiter>)
      modifies this
      ensures (State(), woken) == Release(old(State()))
      ensures old(Sound(State())) && old(activeRequestCount) > 0 ==>
                && Sound(State()) && (woken == None <==> old(requestWaiters) == [])
                && (woken == None ==> activeRequestCount < MAX_CONCURRENT_REQUESTS)
                && (woken.Some? ==> woken.value == old(requestWaiters)[0] && woken.value !in requestWaiters)
    {
      ReleaseStaysSound(State());
      activeRequestCount := activeRequestCount - 1;
      if requestWaiters == [] { return None; }
      var front := requestWaiters[0];
      requestWaiters := requestWaiters[1..];
      var granted := StartWaiter(front);
      woken := if granted then Some(front) else None;
    }

    method AbortWaiter(w: Waiter)
      modifies this
      ensures State() == Abort(old(State()), w)
      ensures old(Sound(State())) ==>
                && Sound(State()) && w !in requestWaiters && activeRequestCount == old(activeRequestCount)
                && (forall v :: v in old(requestWaiters) && v != w ==> v in requestWaiters)
    {
      AbortStaysSound(State(), w);
      if w in settled { return; }
      settled := settled + {w};
      var index := IndexOf(requestWaiters, w);
      if index >= 0 {
        requestWaiters := requestWaiters[..index] + requestWaiters[index + 1..];
      }
    }
  }

  // ---------------------------------------------------------------------------------------
  // Runs
  // ---------------------------------------------------------------------------------------

  datatype Event = Request(w: Waiter) | AbortSignal(w: Waiter) | Finish(w: Waiter)

  /** The semaphore together with what has happened to its clients. */
  datatype World = World(
    slots: Slots,
    running: set<Waiter>,      // hold a slot now
    finished: set<Waiter>,     // held a slot and gave it up
    grants: seq<Waiter>,       // every grant, in order
    queued: seq<Waiter>,       // every waiter that had to queue, in order
    served: seq<Waiter>,       // the grants that came out of the queue, in order
    gaveUp: set<Waiter>)       // aborted while queued

  const START := World(Slots(0, [], {}), {}, {}, [], [], [], {})

  ghost predicate Enabled(s: World, e: Event) {
    match e
    case Request(w) => w !in s.grants && w !in s.queued
    case AbortSignal(w) => w in s.queued
    case Finish(w) => w in s.running
  }

  ghost function Next(s: World, e: Event): World {
    match e
    case Request(w) =>
      var (slots, granted) := Acquire(s.slots, w);
      if granted then s.(slots := slots, running := s.running + {w}, grants := s.grants + [w])
      else s.(slots := slots, queued := s.queued + [w])
    case AbortSignal(w) =>
      var slots := Abort(s.slots, w);
      s.(slots := slots, gaveUp := if w in s.slots.settled then s.gaveUp else s.gaveUp + {w})
    case Finish(w) =>
      var (slots, woken) := Release(s.slots);
      var left := s.(slots := slots, running := s.running - {w}, finished := s.finished + {w});
      match woken
      case None => left
      case Some(v) =>
        left.(running := left.running + {v}, grants := s.grants + [v], served := s.served + [v])
  }

  ghost predicate IsRun(s: World, events: seq<Event>)
    decreases |events|
  {
    events == [] || (Enabled(s, events[0]) && IsRun(Next(s, events[0]), events[1..]))
  }

  ghost function After(s: World, events: seq<Event>): World
    decreases |events|
  {
    if events == [] then s else After(Next(s, events[0]), events[1..])
  }

  ghost predicate NoRepeats(s: seq<Waiter>) {
    forall i, j :: 0 <= i < j < |s| ==> s[i] != s[j]
  }

  /** The queue's arrivals without those that gave up, in order. */
  ghost function Survivors(queued: seq<Waiter>, gaveUp: set<Waiter>): seq<Waiter> {
    if queued == [] then []
    else
      var last := queued[|queued| - 1];
      Survivors(queued[..|queued| - 1], gaveUp) + (if last in gaveUp then [] else [last])
  }

  /** The counter counts the holders; a waiting request means every slot is in use. */
  ghost predicate Counting(s: World) {
    && s.slots.active == |s.running| <= MAX_CONCURRENT_REQUESTS
    && (s.slots.waiters != [] ==> |s.running| == MAX_CONCURRENT_REQUESTS)
  }

  /** The queue holds exactly the unsettled arrivals, each once; a settled one was served or gave up. */
  ghost predicate Queueing(s: World) {
    && NoRepeats(s.slots.waiters)
    && (forall w :: w in s.slots.waiters <==> w in s.queued && w !in s.slots.settled)
    && (forall w :: w in s.slots.settled <==> w in s.gaveUp || w in s.served)
    && (forall w :: w in s.slots.settled ==> w in s.queued)
  }

  /** Every grant is held or was given up, never both, and nobody is granted twice. */
  ghost predicate Granting(s: World) {
    && NoRepeats(s.grants)
    && (forall w :: w in s.grants <==> w in s.running || w in s.finished)
    && s.running !! s.finished
    && (forall w :: w in s.queued ==> (w in s.grants <==> w in s.served))
    && (forall w :: w in s.gaveUp ==> w !in s.grants)
    && (forall w :: w in s.served ==> w in s.queued)
  }

  /** Grants leave the queue in arrival order, skipping only those that gave up. */
  ghost predicate InOrder(s: World) {
    && NoRepeats(s.queued)
    && Survivors(s.queued, s.gaveUp) == s.served + s.slots.waiters
  }

  /** What every reachable state keeps. */
  ghost predicate Inv(s: World) {
    Counting(s) && Queueing(s) && Granting(s) && InOrder(s)
  }

  // ---------------------------------------------------------------------------------------
  // Each event keeps the invariant
  // ---------------------------------------------------------------------------------------

  lemma FoundAt(s: seq<Waiter>, w: Waiter, k: nat)
    requires NoRepeats(s) && k < |s| && s[k] == w
    ensures IndexOf(s, w) == k
  {
    hide IndexOf;
  }

  lemma AppendNew(s: seq<Waiter>, w: Waiter)
    requires NoRepeats(s) && w !in s
    ensures NoRepeats(s + [w])
    ensures forall v :: v in s + [w] <==> v in s || v == w
  {
  }

  lemma DropFront(s: seq<Waiter>)
    requires NoRepeats(s) && s != []
    ensures NoRepeats(s[1..])
    ensures forall v :: v in s[1..] <==> v in s && v != s[0]
  {
    forall v | v in s && v != s[0]
      ensures v in s[1..]
    {
      var i :| 0 <= i < |s| && s[i] == v;
      assert s[1..][i - 1] == v;
    }
  }

  lemma MembersOfSplice(s: seq<Waiter>, w: Waiter)
    requires NoRepeats(s)
    ensures NoRepeats(Splice(s, w))
    ensures forall v :: v in Splice(s, w) <==> v in s && v != w
  {
    hide IndexOf;
    var k := IndexOf(s, w);
    if k >= 0 {
      assert s == s[..k] + [w] + s[k + 1..];
      forall v | v in s && v != w
        ensures v in s[..k] + s[k + 1..]
      {
        assert v in s[..k] || v in s[k + 1..];
      }
    }
  }

  lemma {:induction false} MembersOfSurvivors(queued: seq<Waiter>, gaveUp: set<Waiter>)
    requires NoRepeats(queued)
    ensures NoRepeats(Survivors(queued, gaveUp))
    ensures forall v :: v in Survivors(queued, gaveUp) <==> v in queued && v !in gaveUp
  {
    if queued == [] {
    } else {
      var before, last := queued[..|queued| - 1], queued[|queued| - 1];
      assert queued == before + [last];
      MembersOfSurvivors(before, gaveUp);
      if last !in gaveUp {
        AppendNew(Survivors(before, gaveUp), last);
      }
    }
  }

  /** What is left of the arrivals when one more gives up. */
  lemma {:induction false} SurvivorsOfMore(queued: seq<Waiter>, gaveUp: set<Waiter>, w: Waiter)
    requires NoRepeats(queued)
    ensures Survivors(queued, gaveUp + {w}) == Splice(Survivors(queued, gaveUp), w)
  {
    if queued == [] {
    } else {
      var before, last := queued[..|queued| - 1], queued[|queued| - 1];
      assert queued == before + [last];
      MembersOfSurvivors(before, gaveUp);
      SurvivorsOfMore(before, gaveUp, w);
      var left := Survivors(before, gaveUp);
      assert last !in before;
      SpliceLast(left, last, w);
      assert w !in left ==> Splice(left, w) == left;
      hide Splice, NoRepeats, IndexOf;
      assert left + [] == left && Splice(left, w) + [] == Splice(left, w);
    }
  }

  lemma SpliceAt(s: seq<Waiter>, w: Waiter, k: nat)
    requires k < |s| && s[k] == w && w !in s[..k]
    ensures Splice(s, w) == s[..k] + s[k + 1..]
  {
    hide IndexOf;
    var index := IndexOf(s, w);
    assert forall i :: 0 <= i < k ==> s[i] in s[..k];
    assert forall i :: 0 <= i < index ==> s[i] in s[..index];
  }

  lemma SpliceLast(s: seq<Waiter>, last: Waiter, w: Waiter)
    requires last !in s
    ensures Splice(s + [last], w) == if last == w then s else Splice(s, w) + [last]
  {
    hide IndexOf;
    if last == w {
      assert (s + [last])[..|s|] == s;
      SpliceAt(s + [last], w, |s|);
    } else if w in s {
      var k := IndexOf(s, w);
      assert (s + [last])[..k] == s[..k];
      SpliceAt(s + [last], w, k);
      SpliceAt(s, w, k);
      assert (s + [last])[k + 1..] == s[k + 1..] + [last];
    }
  }

  lemma SpliceAppend(served: seq<Waiter>, waiters: seq<Waiter>, w: Waiter)
    requires w !in served
    ensures Splice(served + waiters, w) == served + Splice(waiters, w)
  {
    hide IndexOf;
    var both := served + waiters;
    if w in waiters {
      var k := IndexOf(waiters, w);
      assert both[..|served| + k] == served + waiters[..k];
      SpliceAt(both, w, |served| + k);
      SpliceAt(waiters, w, k);
      assert both[|served| + k + 1..] == waiters[k + 1..];
    }
  }

  lemma AcquireStaysSound(s: Slots, w: Waiter)
    ensures Sound(s) && w !in s.waiters && w !in s.settled ==>
              && Sound(Acquire(s, w).0)
              && (!Acquire(s, w).1 ==> IndexOf(Acquire(s, w).0.waiters, w) == |s.waiters|)
  {
    hide IndexOf;
    if Sound(s) && w !in s.waiters && w !in s.settled {
      AppendNew(s.waiters, w);
      FoundAt(s.waiters + [w], w, |s.waiters|);
    }
  }

  lemma ReleaseStaysSound(s: Slots)
    ensures Sound(s) && s.active > 0 ==>
              && Sound(Release(s).0) && (Release(s).1 == None <==> s.waiters == [])
              && (s.waiters != [] ==> s.waiters[0] !in s.waiters[1..])
  {
    if Sound(s) && s.active > 0 && s.waiters != [] {
      assert s.waiters[0] in s.waiters;
      DropFront(s.waiters);
    }
  }

  lemma AbortStaysSound(s: Slots, w: Waiter)
    ensures Sound(s) ==> Sound(Abort(s, w)) && forall v :: v in Abort(s, w).waiters <==> v in s.waiters && v != w
  {
    hide Splice;
    if Sound(s) {
      MembersOfSplice(s.waiters, w);
      SomebodyStays(s.waiters, Splice(s.waiters, w));
    }
  }

  lemma SomebodyStays(s: seq<Waiter>, left: seq<Waiter>)
    requires forall v :: v in left ==> v in s
    ensures left != [] ==> s != []
  {
    if left != [] { assert left[0] in s; }
  }

  lemma RequestKeepsInv(s: World, w: Waiter)
    requires Inv(s) && Enabled(s, Request(w))
    ensures Inv(Next(s, Request(w)))
  {
    hide IndexOf, NoRepeats, Survivors;
    if s.slots.active < MAX_CONCURRENT_REQUESTS {
      AppendNew(s.grants, w);
    } else {
      AppendNew(s.slots.waiters, w);
      AppendNew(s.queued, w);
      RequestInOrder(s, w);
    }
  }

  lemma RequestInOrder(s: World, w: Waiter)
    requires Inv(s) && Enabled(s, Request(w)) && s.slots.active >= MAX_CONCURRENT_REQUESTS
    ensures InOrder(Next(s, Request(w)))
  {
    hide IndexOf, NoRepeats;
    var t := Next(s, Request(w));
    AppendNew(s.queued, w);
    assert t.queued[..|t.queued| - 1] == s.queued;
    assert w !in s.gaveUp;
    hide Survivors;
    assert s.served + (s.slots.waiters + [w]) == (s.served + s.slots.waiters) + [w];
  }

  lemma AbortKeepsInv(s: World, w: Waiter)
    requires Inv(s) && Enabled(s, AbortSignal(w))
    ensures Inv(Next(s, AbortSignal(w)))
  {
    if w !in s.slots.settled {
      MembersOfSplice(s.slots.waiters, w);
      SurvivorsOfMore(s.queued, s.gaveUp, w);
      SpliceAppend(s.served, s.slots.waiters, w);
    }
  }

  lemma FinishKeepsInv(s: World, w: Waiter)
    requires Inv(s) && Enabled(s, Finish(w))
    ensures Inv(Next(s, Finish(w)))
  {
    hide IndexOf, NoRepeats, Survivors;
    if s.slots.waiters != [] {
      FinishCounts(s, w);
      FinishGrants(s, w);
      FinishQueues(s, w);
      FinishInOrder(s, w);
    }
  }

  lemma FinishInOrder(s: World, w: Waiter)
    requires Inv(s) && Enabled(s, Finish(w)) && s.slots.waiters != []
    ensures InOrder(Next(s, Finish(w)))
  {
    hide IndexOf, NoRepeats, Survivors;
    var front := s.slots.waiters[0];
    assert front in s.slots.waiters;
    assert s.served + s.slots.waiters == (s.served + [front]) + s.slots.waiters[1..];
  }

  lemma FinishCounts(s: World, w: Waiter)
    requires Inv(s) && Enabled(s, Finish(w)) && s.slots.waiters != []
    ensures Counting(Next(s, Finish(w)))
  {
    hide NoRepeats, Survivors;
    var front := s.slots.waiters[0];
    assert front in s.slots.waiters;
    assert front !in s.running;
    assert |s.running - {w} + {front}| == |s.running - {w}| + 1;
  }

  lemma FinishGrants(s: World, w: Waiter)
    requires Inv(s) && Enabled(s, Finish(w)) && s.slots.waiters != []
    ensures Granting(Next(s, Finish(w)))
  {
    hide NoRepeats, Survivors;
    var front := s.slots.waiters[0];
    assert front in s.slots.waiters;
    AppendNew(s.grants, front);
  }

  lemma FinishQueues(s: World, w: Waiter)
    requires Inv(s) && Enabled(s, Finish(w)) && s.slots.waiters != []
    ensures Queueing(Next(s, Finish(w)))
  {
    hide NoRepeats, Survivors;
    assert s.slots.waiters[0] in s.slots.waiters;
    DropFront(s.slots.waiters);
  }

  lemma NextKeepsInv(s: World, e: Event)
    requires Inv(s) && Enabled(s, e)
    ensures Inv(Next(s, e))
  {
    match e
    case Request(w) => RequestKeepsInv(s, w);
    case AbortSignal(w) => AbortKeepsInv(s, w);
    case Finish(w) => FinishKeepsInv(s, w);
  }

  /** The invariant holds after every run from the start, whatever the interleaving. */
  lemma {:induction false} EveryRunKeepsInv(s: World, events: seq<Event>)
    requires Inv(s) && IsRun(s, events)
    ensures Inv(After(s, events))
    decreases |events|
  {
    if events == [] {
    } else {
      NextKeepsInv(s, events[0]);
      EveryRunKeepsInv(Next(s, events[0]), events[1..]);
    }
  }

  /** Nothing has happened at the start, so every run from it is safe. */
  lemma EveryRunIsSafe(events: seq<Event>)
    requires IsRun(START, events)
    ensures Inv(After(START, events))
  {
    EveryRunKeepsInv(START, events);
  }

  // ---------------------------------------------------------------------------------------
  // What the invariant is for
  // ---------------------------------------------------------------------------------------

  /** A finish with a non-empty queue always grants, and grants the front waiter. */
  lemma FinishWakesFront(s: World, w: Waiter)
    requires Inv(s) && Enabled(s, Finish(w)) && s.slots.waiters != []
    ensures Release(s.slots).1 == Some(s.slots.waiters[0])
    ensures Next(s, Finish(w)).running == s.running - {w} + {s.slots.waiters[0]}
  {
    assert s.slots.waiters[0] in s.slots.waiters;
  }

  ghost function Finishes(events: seq<Event>): nat {
    if events == [] then 0 else (if events[0].Finish? then 1 else 0) + Finishes(events[1..])
  }

  /** A queued request never moves back, and every finish moves it forward. */
  lemma PositionAdvances(s: World, e: Event, w: Waiter)
    requires Inv(s) && Enabled(s, e)
    requires w in s.slots.waiters && w in Next(s, e).slots.waiters
    ensures IndexOf(Next(s, e).slots.waiters, w) <=
            IndexOf(s.slots.waiters, w) - (if e.Finish? then 1 else 0)
  {
    NextKeepsInv(s, e);
    hide IndexOf, Survivors;
    var before := s.slots.waiters;
    match e
    case Request(v) =>
      FoundAt(Next(s, e).slots.waiters, w, IndexOf(before, w));
    case AbortSignal(v) =>
      if v !in s.slots.settled { SplicedPosition(before, v, w); }
    case Finish(v) =>
      assert before[0] in before;
      FrontPosition(before, w);
  }

  lemma SplicedPosition(s: seq<Waiter>, v: Waiter, w: Waiter)
    requires NoRepeats(s) && w in s && v != w
    ensures IndexOf(Splice(s, v), w) <= IndexOf(s, w)
  {
    hide IndexOf;
    var k, cut := IndexOf(s, w), IndexOf(s, v);
    MembersOfSplice(s, v);
    FoundAt(Splice(s, v), w, if 0 <= cut < k then k - 1 else k);
  }

  lemma FrontPosition(s: seq<Waiter>, w: Waiter)
    requires NoRepeats(s) && w in s && s[0] != w
    ensures IndexOf(s[1..], w) == IndexOf(s, w) - 1
  {
    hide IndexOf;
    FoundAt(s[1..], w, IndexOf(s, w) - 1);
  }

  /** Once settled, a request stays out of the queue: it was served or it gave up. */
  lemma {:induction false} SettledStays(s: World, events: seq<Event>, w: Waiter)
    requires Inv(s) && IsRun(s, events) && w in s.queued && w !in s.slots.waiters
    ensures w !in After(s, events).slots.waiters
    ensures w in After(s, events).grants || w in After(s, events).gaveUp
    decreases |events|
  {
    if events == [] {
    } else {
      NextKeepsInv(s, events[0]);
      SettledStays(Next(s, events[0]), events[1..], w);
    }
  }

  /**
   Bounded waiting: a request with `k` waiters in front of it leaves the queue, granted or
   aborted, by the time `k + 1` running operations have finished, whatever else happens.
   */
  lemma {:induction false} WaitIsBounded(s: World, events: seq<Event>, w: Waiter)
    requires Inv(s) && IsRun(s, events) && w in s.slots.waiters
    requires Finishes(events) > IndexOf(s.slots.waiters, w)
    ensures w !in After(s, events).slots.waiters
    ensures w in After(s, events).grants || w in After(s, events).gaveUp
    decreases |events|
  {
    var e, t := events[0], Next(s, events[0]);
    NextKeepsInv(s, e);
    if w in t.slots.waiters {
      PositionAdvances(s, e, w);
      WaitIsBounded(t, events[1..], w);
    } else {
      SettledStays(t, events[1..], w);
    }
  }
}
