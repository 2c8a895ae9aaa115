/**
 The tile machine with its request slots: `withRequestSlot` around the fetch of a tile
 (frontend/src/cafe-provider.ts:368-382). A tile that has to be fetched takes a ticket, which waits for a slot
 or holds one until the fetch has ended; its reply is handled afterwards.
 */
module TileFetches {
  import opened Outcomes
  import A = TileAnswers
  import P = TileProvider
  import R = RequestSlots
  import C = TileCache
  import opened CafeSummaries
  import opened TileGeometry

  type Ticket = Option<R.Waiter>

  /** `tickets` runs parallel to the frontiers of the calls. */
  datatype Client = Client(provider: P.Provider, slots: R.World, tickets: seq<seq<Ticket>>, issued: nat)

  const NEW_CLIENT := Client(P.INITIAL, R.START, [], 0)

  datatype Step =
    | OnProvider(step: P.Step)
    | EndFetch(call: nat, index: nat)
    | GiveUp(call: nat, index: nat)

  predicate HasTicket(s: Client, call: nat, index: nat) {
    call < |s.tickets| && index < |s.tickets[call]| && s.tickets[call][index].Some?
  }

  function TicketAt(s: Client, call: nat, index: nat): R.Waiter
    requires HasTicket(s, call, index)
  {
    s.tickets[call][index].value
  }

  ghost predicate Enabled(p: Projection, served: P.Served, s: Client, step: Step) {
    match step
    case OnProvider(inner) =>
      && P.Enabled(p, served, s.provider, inner)
      && (inner.Receive? || inner.Reject? ==> !HasTicket(s, inner.call, inner.index))
    case EndFetch(call, index) => HasTicket(s, call, index) && TicketAt(s, call, index) in s.slots.running
    case GiveUp(call, index) =>
      && HasTicket(s, call, index) && TicketAt(s, call, index) in s.slots.slots.waiters
      && P.Enabled(p, served, s.provider, P.Reject(call, index))
  }

  function None(count: nat): seq<Ticket> {
    seq(count, _ => Option.None)
  }

  function Splice(row: seq<Ticket>, index: nat, put: seq<Ticket>): seq<Ticket>
    requires index < |row|
  {
    row[..index] + put + row[index + 1..]
  }

  /** The tile at `index` was waiting for its visit and is now in flight. */
  predicate StartsFetch(before: seq<P.Node>, after: seq<P.Node>, index: nat) {
    index < |before| && before[index].Pending? && index < |after| && after[index].InFlight?
  }

  /** A tile step replaces one tile by some; the one that goes in flight takes the next ticket. */
  ghost function OnTile(s: Client, after: P.Provider, call: nat, index: nat): Client {
    if call < |s.provider.calls| && call < |s.tickets| && index < |s.tickets[call]| && call < |after.calls| then
      var row, before, frontier := s.tickets[call], s.provider.calls[call].frontier, after.calls[call].frontier;
      if StartsFetch(before, frontier, index) then
        Client(after, R.Next(s.slots, R.Request(s.issued)),
               s.tickets[call := Splice(row, index, [Some(s.issued)])], s.issued + 1)
      else
        var count := |frontier| - |before| + 1;
        s.(provider := after,
           tickets := s.tickets[call := Splice(row, index, None(if count < 0 then 0 else count))])
    else s.(provider := after)
  }

  ghost function Next(p: Projection, served: P.Served, s: Client, step: Step): Client
    requires Enabled(p, served, s, step)
  {
    match step
    case OnProvider(inner) =>
      var after := P.Next(p, served, s.provider, inner);
      if P.OnTile(inner) then OnTile(s, after, inner.call, inner.index)
      else if inner.GetCafes? then s.(provider := after, tickets := s.tickets + [None(|inner.roots|)])
      else s.(provider := after)
    case EndFetch(call, index) =>
      s.(slots := R.Next(s.slots, R.Finish(TicketAt(s, call, index))),
         tickets := s.tickets[call := Splice(s.tickets[call], index, None(1))])
    case GiveUp(call, index) =>
      s.(provider := P.Next(p, served, s.provider, P.Reject(call, index)),
         slots := R.Next(s.slots, R.AbortSignal(TicketAt(s, call, index))),
         tickets := s.tickets[call := Splice(s.tickets[call], index, None(1))])
  }

  ghost predicate IsRun(p: Projection, served: P.Served, s: Client, steps: seq<Step>)
    decreases |steps|
  {
    steps == [] || (Enabled(p, served, s, steps[0]) && IsRun(p, served, Next(p, served, s, steps[0]), steps[1..]))
  }

  ghost function After(p: Projection, served: P.Served, s: Client, steps: seq<Step>): Client
    requires IsRun(p, served, s, steps)
    decreases |steps|
  {
    if steps == [] then s else After(p, served, Next(p, served, s, steps[0]), steps[1..])
  }

  // ---------------------------------------------------------------------------------------
  // Tickets
  // ---------------------------------------------------------------------------------------

  ghost function Held(row: seq<Ticket>): multiset<R.Waiter> {
    if row == [] then multiset{}
    else (if row[0].Some? then multiset{row[0].value} else multiset{}) + Held(row[1..])
  }

  ghost function AllHeld(tickets: seq<seq<Ticket>>): multiset<R.Waiter> {
    if tickets == [] then multiset{} else Held(tickets[0]) + AllHeld(tickets[1..])
  }

  lemma {:induction false} HeldAppend(a: seq<Ticket>, b: seq<Ticket>)
    ensures Held(a + b) == Held(a) + Held(b)
  {
    if a == [] {
      assert a + b == b;
    } else {
      assert (a + b)[1..] == a[1..] + b;
      HeldAppend(a[1..], b);
    }
  }

  lemma HeldSplice(row: seq<Ticket>, index: nat, put: seq<Ticket>)
    requires index < |row|
    ensures Held(Splice(row, index, put)) + Held([row[index]]) == Held(row) + Held(put)
  {
    hide Held;
    var left, right := row[..index], row[index + 1..];
    assert row == left + ([row[index]] + right);
    HeldAppend(left, [row[index]] + right);
    HeldAppend([row[index]], right);
    HeldAppend(left + put, right);
    HeldAppend(left, put);
  }

  lemma {:induction false} NoneHeld(count: nat)
    ensures Held(None(count)) == multiset{}
  {
    if count > 0 {
      assert None(count)[1..] == None(count - 1);
      NoneHeld(count - 1);
    }
  }

  lemma OneHeld(ticket: Ticket)
    ensures Held([ticket]) == if ticket.Some? then multiset{ticket.value} else multiset{}
  {
  }

  lemma Cancel<T>(a: multiset<T>, b: multiset<T>, c: multiset<T>)
    requires a + c == b + c
    ensures a == b
  {
    forall x
      ensures a[x] == b[x]
    {
      assert (a + c)[x] == (b + c)[x];
    }
  }

  lemma Carry<T>(x: multiset<T>, a: multiset<T>, b: multiset<T>, c: multiset<T>, d: multiset<T>)
    requires a + b == c + d
    ensures (x + a) + b == (x + c) + d
  {
    assert (x + a) + b == x + (a + b);
    assert (x + c) + d == x + (c + d);
  }

  lemma Exchange<T>(
      u: multiset<T>, row: multiset<T>, a: multiset<T>, spliced: multiset<T>, h: multiset<T>, put: multiset<T>)
    requires u + row == a + spliced && spliced + h == row + put
    ensures u + h == a + put
  {
    forall x
      ensures (u + h)[x] == (a + put)[x]
    {
      assert (u + row)[x] == (a + spliced)[x] && (spliced + h)[x] == (row + put)[x];
    }
  }

  lemma {:induction false} AllHeldUpdate(tickets: seq<seq<Ticket>>, call: nat, row: seq<Ticket>)
    requires call < |tickets|
    ensures AllHeld(tickets[call := row]) + Held(tickets[call]) == AllHeld(tickets) + Held(row)
  {
    if call == 0 {
      assert tickets[0 := row][1..] == tickets[1..];
    } else {
      assert tickets[call := row][1..] == tickets[1..][call - 1 := row];
      AllHeldUpdate(tickets[1..], call - 1, row);
      Carry(Held(tickets[0]), AllHeld(tickets[1..][call - 1 := row]), Held(tickets[call]), AllHeld(tickets[1..]),
            Held(row));
    }
  }

  lemma {:induction false} AllHeldAppend(tickets: seq<seq<Ticket>>, row: seq<Ticket>)
    ensures AllHeld(tickets + [row]) == AllHeld(tickets) + Held(row)
  {
    if tickets == [] {
      assert tickets + [row] == [row];
    } else {
      assert (tickets + [row])[1..] == tickets[1..] + [row];
      AllHeldAppend(tickets[1..], row);
    }
  }

  /** Replacing one ticket changes what is held by exactly that ticket. */
  lemma SpliceHeld(s: Client, call: nat, index: nat, put: seq<Ticket>)
    requires call < |s.tickets| && index < |s.tickets[call]|
    ensures AllHeld(s.tickets[call := Splice(s.tickets[call], index, put)]) + Held([s.tickets[call][index]])
         == AllHeld(s.tickets) + Held(put)
  {
    hide Held, AllHeld, Splice;
    var spliced := Splice(s.tickets[call], index, put);
    AllHeldUpdate(s.tickets, call, spliced);
    HeldSplice(s.tickets[call], index, put);
    Exchange(AllHeld(s.tickets[call := spliced]), Held(s.tickets[call]), AllHeld(s.tickets), Held(spliced),
             Held([s.tickets[call][index]]), Held(put));
  }

  // ---------------------------------------------------------------------------------------
  // What every reachable state keeps
  // ---------------------------------------------------------------------------------------

  /** A ticket belongs to a tile in flight. */
  predicate RowFits(frontier: seq<P.Node>, row: seq<Ticket>) {
    |row| == |frontier| && forall i :: 0 <= i < |row| && row[i].Some? ==> frontier[i].InFlight?
  }

  predicate RowsFit(s: Client) {
    && |s.tickets| == |s.provider.calls|
    && forall c :: 0 <= c < |s.tickets| ==> RowFits(s.provider.calls[c].frontier, s.tickets[c])
  }

  /** The tickets held are those with a slot and those in the queue, each once. */
  ghost predicate TicketsMatch(s: Client) {
    AllHeld(s.tickets) == multiset(s.slots.running) + multiset(s.slots.slots.waiters)
  }

  ghost predicate TicketsIssued(s: Client) {
    && (forall w :: w in s.slots.grants ==> w < s.issued)
    && (forall w :: w in s.slots.queued ==> w < s.issued)
  }

  ghost predicate Inv(s: Client) {
    RowsFit(s) && TicketsMatch(s) && TicketsIssued(s) && R.Inv(s.slots)
  }

  /** A step on a tile puts some tiles in its place and leaves every other one alone. */
  lemma TileStepReplaces(p: Projection, served: P.Served, s: P.Provider, step: P.Step) returns (put: seq<P.Node>)
    requires P.Enabled(p, served, s, step) && P.OnTile(step)
    ensures put != [] && (P.Next(p, served, s, step).calls == s.calls[step.call :=
              s.calls[step.call].(frontier := P.Replace(s.calls[step.call].frontier, step.index, put))])
    ensures !step.Visit? ==> !put[0].InFlight?
    ensures put[0].InFlight? ==> |put| == 1
  {
    hide C.AfterRead, C.AfterStore, C.ReadValue, TileBounds;
    var n := s.calls[step.call].frontier[step.index];
    match step
    case Visit(call, index) =>
      var found := C.ReadValue(s.cache, C.TileKey(P.VersionLabel(s.version), n.tile), s.now);
      put := if found.Some? then [P.Done(n.tile, found.value)]
      else if n.tile in s.splitTiles then P.Children(n.tile, n.depth + 1)
      else [P.InFlight(n.tile, n.depth, s.version)];
    case Receive(call, index, reply) =>
      put := if !reply.truncated then [P.Done(n.tile, reply.items)]
      else if n.depth >= P.MAX_VIEWPORT_SPLIT_DEPTH then [P.Failed(n.tile)] else P.Children(n.tile, n.depth + 1);
    case Reject(call, index) => put := [P.Failed(n.tile)];
  }

  lemma SpliceFits(frontier: seq<P.Node>, row: seq<Ticket>, index: nat, put: seq<P.Node>, tickets: seq<Ticket>)
    requires RowFits(frontier, row) && index < |row| && RowFits(put, tickets)
    ensures RowFits(P.Replace(frontier, index, put), Splice(row, index, tickets))
  {
    var more, cells := P.Replace(frontier, index, put), Splice(row, index, tickets);
    forall i | 0 <= i < |cells| && cells[i].Some?
      ensures more[i].InFlight?
    {
      if i < index {
        assert cells[i] == row[i];
      } else if i < index + |put| {
        assert cells[i] == tickets[i - index];
      } else {
        assert cells[i] == row[i - |put| + 1];
      }
    }
  }

  lemma NoneFits(put: seq<P.Node>)
    ensures RowFits(put, None(|put|))
  {
  }

  /** A tile that was pending and goes in flight takes the next ticket. */
  lemma FetchStarts(p: Projection, served: P.Served, s: Client, call: nat, index: nat)
    requires Inv(s) && Enabled(p, served, s, OnProvider(P.Visit(call, index)))
    requires StartsFetch(s.provider.calls[call].frontier,
                         P.Next(p, served, s.provider, P.Visit(call, index)).calls[call].frontier, index)
    ensures Inv(Next(p, served, s, OnProvider(P.Visit(call, index))))
  {
    hide P.Next, R.Next, AllHeld, Held, R.Inv, Splice, P.Replace;
    var put := TileStepReplaces(p, served, s.provider, P.Visit(call, index));
    FirstOfReplace(s.provider.calls[call].frontier, index, put);
    SpliceHeld(s, call, index, [Some(s.issued)]);
    OneHeld(s.tickets[call][index]);
    OneHeld(Some(s.issued));
    SpliceFits(s.provider.calls[call].frontier, s.tickets[call], index, put, [Some(s.issued)]);
    RequestMatches(s.slots, s.issued);
    R.NextKeepsInv(s.slots, R.Request(s.issued));
  }

  lemma FirstOfReplace(frontier: seq<P.Node>, index: nat, put: seq<P.Node>)
    requires index < |frontier| && put != []
    ensures var more := P.Replace(frontier, index, put);
            |more| == |frontier| + |put| - 1 && more[index] == put[0]
  {
  }

  lemma RequestMatches(w: R.World, ticket: R.Waiter)
    requires R.Inv(w) && R.Enabled(w, R.Request(ticket))
    ensures var t := R.Next(w, R.Request(ticket));
            && multiset(t.running) + multiset(t.slots.waiters)
               == multiset(w.running) + multiset(w.slots.waiters) + multiset{ticket}
            && (forall v :: v in t.grants ==> v in w.grants || v == ticket)
            && (forall v :: v in t.queued ==> v in w.queued || v == ticket)
  {
    hide R.Queueing, R.InOrder, R.Counting;
  }

  /** Any other step on a tile leaves no ticket in its place, and none was there. */
  lemma TileSettles(p: Projection, served: P.Served, s: Client, inner: P.Step)
    requires Inv(s) && Enabled(p, served, s, OnProvider(inner)) && P.OnTile(inner)
    requires !StartsFetch(s.provider.calls[inner.call].frontier,
                          P.Next(p, served, s.provider, inner).calls[inner.call].frontier, inner.index)
    ensures Inv(Next(p, served, s, OnProvider(inner)))
  {
    hide P.Next, AllHeld, Held, R.Inv, Splice, P.Replace;
    var call, index := inner.call, inner.index;
    var put := TileStepReplaces(p, served, s.provider, inner);
    FirstOfReplace(s.provider.calls[call].frontier, index, put);
    SpliceHeld(s, call, index, None(|put|));
    OneHeld(s.tickets[call][index]);
    NoneHeld(|put|);
    NoneFits(put);
    SpliceFits(s.provider.calls[call].frontier, s.tickets[call], index, put, None(|put|));
    assert s.tickets[call][index].None?;
    var t := Next(p, served, s, OnProvider(inner));
    assert t.tickets == s.tickets[call := Splice(s.tickets[call], index, None(|put|))];
    Cancel(AllHeld(t.tickets), AllHeld(s.tickets), multiset{});
  }

  lemma OtherStepKeepsInv(p: Projection, served: P.Served, s: Client, inner: P.Step)
    requires Inv(s) && Enabled(p, served, s, OnProvider(inner)) && !P.OnTile(inner)
    ensures Inv(Next(p, served, s, OnProvider(inner)))
  {
    hide AllHeld, Held, R.Inv, P.RootNodes;
    match inner
    case GetCafes(viewport, roots) =>
      AllHeldAppend(s.tickets, None(|roots|));
      NoneHeld(|roots|);
    case SetCacheVersion(version) =>
    case Tick(now) =>
    case _ =>
  }

  /** A ticket that leaves takes nothing else along, whether its tile stays in flight or not. */
  lemma TicketLeaves(s: Client, call: nat, index: nat, node: P.Node)
    requires Inv(s) && HasTicket(s, call, index)
    ensures var tickets := s.tickets[call := Splice(s.tickets[call], index, None(1))];
            && AllHeld(tickets) + multiset{TicketAt(s, call, index)} == AllHeld(s.tickets)
            && P.HasNode(s.provider, call, index)
            && RowsFit(s.(provider := P.WithNodes(s.provider, call, index, [node]), tickets := tickets))
  {
    hide AllHeld, Held, Splice, R.Inv, P.Replace;
    SpliceHeld(s, call, index, None(1));
    OneHeld(s.tickets[call][index]);
    NoneHeld(1);
    NoneFits([node]);
    SpliceFits(s.provider.calls[call].frontier, s.tickets[call], index, [node], None(1));
  }

  lemma SameNode(s: P.Provider, call: nat, index: nat)
    requires P.HasNode(s, call, index)
    ensures P.WithNodes(s, call, index, [s.calls[call].frontier[index]]) == s
  {
    var c := s.calls[call];
    assert P.Replace(c.frontier, index, [c.frontier[index]]) == c.frontier;
  }

  lemma EndFetchKeepsInv(p: Projection, served: P.Served, s: Client, call: nat, index: nat)
    requires Inv(s) && Enabled(p, served, s, EndFetch(call, index))
    ensures Inv(Next(p, served, s, EndFetch(call, index)))
  {
    hide AllHeld, Splice, R.Next, R.Inv, R.Enabled;
    var w := TicketAt(s, call, index);
    var node := s.provider.calls[call].frontier[index];
    TicketLeaves(s, call, index, node);
    SameNode(s.provider, call, index);
    FinishMatches(s.slots, w);
    var t := Next(p, served, s, EndFetch(call, index));
    Cancel(AllHeld(t.tickets), multiset(t.slots.running) + multiset(t.slots.slots.waiters), multiset{w});
    R.NextKeepsInv(s.slots, R.Finish(w));
  }

  lemma FinishMatches(w: R.World, ticket: R.Waiter)
    requires R.Inv(w) && ticket in w.running
    ensures R.Enabled(w, R.Finish(ticket))
    ensures var t := R.Next(w, R.Finish(ticket));
            && multiset(t.running) + multiset(t.slots.waiters) + multiset{ticket}
               == multiset(w.running) + multiset(w.slots.waiters)
            && (forall v :: v in t.grants ==> v in w.grants || v in w.queued) && t.queued == w.queued
  {
    if w.slots.waiters != [] {
      R.FinishWakesFront(w, ticket);
      var front := w.slots.waiters[0];
      assert front in w.slots.waiters;
      assert w.slots.waiters == [front] + w.slots.waiters[1..];
    }
  }

  lemma GiveUpKeepsInv(p: Projection, served: P.Served, s: Client, call: nat, index: nat)
    requires Inv(s) && Enabled(p, served, s, GiveUp(call, index))
    ensures Inv(Next(p, served, s, GiveUp(call, index)))
  {
    hide AllHeld, Splice, R.Next, R.Inv, R.Enabled;
    var w := TicketAt(s, call, index);
    TicketLeaves(s, call, index, P.Failed(s.provider.calls[call].frontier[index].tile));
    AbortMatches(s.slots, w);
    var t := Next(p, served, s, GiveUp(call, index));
    Cancel(AllHeld(t.tickets), multiset(t.slots.running) + multiset(t.slots.slots.waiters), multiset{w});
    R.NextKeepsInv(s.slots, R.AbortSignal(w));
  }

  lemma AbortMatches(w: R.World, ticket: R.Waiter)
    requires R.Inv(w) && ticket in w.slots.waiters
    ensures R.Enabled(w, R.AbortSignal(ticket))
    ensures var t := R.Next(w, R.AbortSignal(ticket));
            && multiset(t.running) + multiset(t.slots.waiters) + multiset{ticket}
               == multiset(w.running) + multiset(w.slots.waiters)
            && t.grants == w.grants && t.queued == w.queued
  {
    var waiters, i := w.slots.waiters, R.IndexOf(w.slots.waiters, ticket);
    assert waiters == waiters[..i] + [ticket] + waiters[i + 1..];
  }

  lemma StepKeepsInv(p: Projection, served: P.Served, s: Client, step: Step)
    requires Inv(s) && Enabled(p, served, s, step)
    ensures Inv(Next(p, served, s, step))
  {
    hide Inv, P.Next, OnTile;
    match step
    case OnProvider(inner) =>
      if P.OnTile(inner) {
        var put := TileStepReplaces(p, served, s.provider, inner);
        var frontier := P.Next(p, served, s.provider, inner).calls[inner.call].frontier;
        if StartsFetch(s.provider.calls[inner.call].frontier, frontier, inner.index) {
          OnlyVisitsFetch(p, served, s.provider, inner);
          FetchStarts(p, served, s, inner.call, inner.index);
        } else {
          TileSettles(p, served, s, inner);
        }
      } else {
        OtherStepKeepsInv(p, served, s, inner);
      }
    case EndFetch(call, index) => EndFetchKeepsInv(p, served, s, call, index);
    case GiveUp(call, index) => GiveUpKeepsInv(p, served, s, call, index);
  }

  lemma OnlyVisitsFetch(p: Projection, served: P.Served, s: P.Provider, step: P.Step)
    requires P.Enabled(p, served, s, step) && P.OnTile(step)
    requires StartsFetch(s.calls[step.call].frontier, P.Next(p, served, s, step).calls[step.call].frontier, step.index)
    ensures step == P.Visit(step.call, step.index)
  {
    hide P.Next, P.Replace;
    var put := TileStepReplaces(p, served, s, step);
    FirstOfReplace(s.calls[step.call].frontier, step.index, put);
  }

  lemma {:induction false} EveryRunKeepsInv(p: Projection, served: P.Served, s: Client, steps: seq<Step>)
    requires Inv(s) && IsRun(p, served, s, steps)
    ensures Inv(After(p, served, s, steps))
    decreases |steps|
  {
    hide Inv, Next, Enabled;
    if steps != [] {
      StepKeepsInv(p, served, s, steps[0]);
      EveryRunKeepsInv(p, served, Next(p, served, s, steps[0]), steps[1..]);
    }
  }

  // ---------------------------------------------------------------------------------------
  // A run of the client is a run of the tile machine and a run of the semaphore
  // ---------------------------------------------------------------------------------------

  function ProviderSteps(step: Step): seq<P.Step> {
    match step
    case OnProvider(inner) => [inner]
    case EndFetch(_, _) => []
    case GiveUp(call, index) => [P.Reject(call, index)]
  }

  function AllProviderSteps(steps: seq<Step>): seq<P.Step> {
    if steps == [] then [] else ProviderSteps(steps[0]) + AllProviderSteps(steps[1..])
  }

  lemma StepProjects(p: Projection, served: P.Served, s: Client, step: Step)
    requires Enabled(p, served, s, step)
    ensures P.IsRun(p, served, s.provider, ProviderSteps(step))
    ensures P.After(p, served, s.provider, ProviderSteps(step)) == Next(p, served, s, step).provider
  {
    hide P.Next, P.Enabled, R.Next;
    if step.OnProvider? || step.GiveUp? {
      var inner := if step.OnProvider? then step.step else P.Reject(step.call, step.index);
      var t := P.Next(p, served, s.provider, inner);
      assert [inner][1..] == [];
      assert P.IsRun(p, served, t, []) && P.After(p, served, t, []) == t;
    }
  }

  lemma {:induction false} RunsFollow(p: Projection, served: P.Served, s: P.Provider, a: seq<P.Step>, b: seq<P.Step>)
    requires P.IsRun(p, served, s, a) && P.IsRun(p, served, P.After(p, served, s, a), b)
    ensures P.IsRun(p, served, s, a + b)
    ensures P.After(p, served, s, a + b) == P.After(p, served, P.After(p, served, s, a), b)
    decreases |a|
  {
    hide P.Next, P.Enabled;
    if a == [] {
      assert a + b == b;
    } else {
      assert (a + b)[1..] == a[1..] + b;
      RunsFollow(p, served, P.Next(p, served, s, a[0]), a[1..], b);
    }
  }

  /** What the tile machine does in a run with slots it could do without them. */
  lemma {:induction false} EveryRunProjects(p: Projection, served: P.Served, s: Client, steps: seq<Step>)
    requires IsRun(p, served, s, steps)
    ensures P.IsRun(p, served, s.provider, AllProviderSteps(steps))
    ensures P.After(p, served, s.provider, AllProviderSteps(steps)) == After(p, served, s, steps).provider
    decreases |steps|
  {
    hide Next, Enabled;
    if steps != [] {
      var t := Next(p, served, s, steps[0]);
      StepProjects(p, served, s, steps[0]);
      EveryRunProjects(p, served, t, steps[1..]);
      RunsFollow(p, served, s.provider, ProviderSteps(steps[0]), AllProviderSteps(steps[1..]));
    }
  }

  ghost function SlotEvents(p: Projection, served: P.Served, s: Client, step: Step): seq<R.Event>
    requires Enabled(p, served, s, step)
  {
    match step
    case OnProvider(inner) =>
      if Next(p, served, s, step).issued > s.issued then [R.Request(s.issued)] else []
    case EndFetch(call, index) => [R.Finish(TicketAt(s, call, index))]
    case GiveUp(call, index) => [R.AbortSignal(TicketAt(s, call, index))]
  }

  ghost function AllSlotEvents(p: Projection, served: P.Served, s: Client, steps: seq<Step>): seq<R.Event>
    requires IsRun(p, served, s, steps)
    decreases |steps|
  {
    if steps == [] then []
    else SlotEvents(p, served, s, steps[0]) + AllSlotEvents(p, served, Next(p, served, s, steps[0]), steps[1..])
  }

  lemma SlotStep(p: Projection, served: P.Served, s: Client, step: Step)
    requires Inv(s) && Enabled(p, served, s, step)
    ensures var events := SlotEvents(p, served, s, step);
            && |events| <= 1
            && (if events == [] then Next(p, served, s, step).slots == s.slots
                else R.Enabled(s.slots, events[0]) && R.Next(s.slots, events[0]) == Next(p, served, s, step).slots)
            && R.Finishes(events) == if step.EndFetch? then 1 else 0
  {
    hide P.Next, P.Enabled, R.Next, AllHeld, Splice, RowsFit, TicketsMatch;
    match step
    case OnProvider(inner) =>
      if SlotEvents(p, served, s, step) != [] { assert R.Finishes([R.Request(s.issued)][1..]) == 0; }
    case EndFetch(call, index) => assert R.Finishes([R.Finish(TicketAt(s, call, index))][1..]) == 0;
    case GiveUp(call, index) => assert R.Finishes([R.AbortSignal(TicketAt(s, call, index))][1..]) == 0;
  }

  function EndedFetches(steps: seq<Step>): nat {
    if steps == [] then 0 else (if steps[0].EndFetch? then 1 else 0) + EndedFetches(steps[1..])
  }

  /** The semaphore sees its own events, and one finish for every fetch that ended. */
  lemma {:induction false} EveryRunActsOnSlots(p: Projection, served: P.Served, s: Client, steps: seq<Step>)
    requires Inv(s) && IsRun(p, served, s, steps)
    ensures var events := AllSlotEvents(p, served, s, steps);
            && R.IsRun(s.slots, events) && R.After(s.slots, events) == After(p, served, s, steps).slots
            && R.Finishes(events) == EndedFetches(steps)
    decreases |steps|
  {
    hide Inv, Next, Enabled, R.Next, R.Enabled, SlotEvents;
    if steps != [] {
      var t := Next(p, served, s, steps[0]);
      StepKeepsInv(p, served, s, steps[0]);
      SlotStep(p, served, s, steps[0]);
      EveryRunActsOnSlots(p, served, t, steps[1..]);
      var events, rest := SlotEvents(p, served, s, steps[0]), AllSlotEvents(p, served, t, steps[1..]);
      if events == [] {
        assert events + rest == rest;
      } else {
        assert events == [events[0]];
        assert (events + rest)[1..] == rest;
        assert R.Finishes(events[1..]) == 0;
      }
    }
  }

  // ---------------------------------------------------------------------------------------
  // What the slots guarantee to the tiles
  // ---------------------------------------------------------------------------------------

  /** The tiles whose tickets are among `chosen`. */
  ghost function Holders(s: Client, chosen: set<R.Waiter>): set<(nat, nat)> {
    set c: nat, i: nat | c < |s.tickets| && i < |s.tickets[c]| && HasTicket(s, c, i) && TicketAt(s, c, i) in chosen
      :: (c, i)
  }

  lemma TicketIsHeld(s: Client, call: nat, index: nat)
    requires HasTicket(s, call, index)
    ensures TicketAt(s, call, index) in AllHeld(s.tickets)
  {
    hide AllHeld, Held;
    SpliceHeld(s, call, index, None(1));
    OneHeld(s.tickets[call][index]);
    NoneHeld(1);
    var left := AllHeld(s.tickets[call := Splice(s.tickets[call], index, None(1))]);
    assert (left + multiset{TicketAt(s, call, index)})[TicketAt(s, call, index)] >= 1;
  }

  lemma {:induction false} HeldInRow(row: seq<Ticket>, w: R.Waiter) returns (index: nat)
    requires w in Held(row)
    ensures index < |row| && row[index] == Some(w)
  {
    if row[0] == Some(w) {
      index := 0;
    } else {
      index := HeldInRow(row[1..], w);
      index := index + 1;
    }
  }

  /** Every ticket that is held is held by a tile. */
  lemma {:induction false} HeldByATile(tickets: seq<seq<Ticket>>, w: R.Waiter) returns (call: nat, index: nat)
    requires w in AllHeld(tickets)
    ensures call < |tickets| && index < |tickets[call]| && tickets[call][index] == Some(w)
  {
    if w in Held(tickets[0]) {
      index := HeldInRow(tickets[0], w);
      call := 0;
    } else {
      call, index := HeldByATile(tickets[1..], w);
      call := call + 1;
    }
  }

  /** A ticket counted once is held by one tile only. */
  lemma OneHolder(s: Client, c: nat, i: nat, d: nat, j: nat)
    requires HasTicket(s, c, i) && HasTicket(s, d, j) && TicketAt(s, c, i) == TicketAt(s, d, j)
    requires AllHeld(s.tickets)[TicketAt(s, c, i)] <= 1
    ensures c == d && i == j
  {
    hide AllHeld, Held;
    if c != d || i != j {
      var w := TicketAt(s, c, i);
      var t := s.(tickets := s.tickets[c := Splice(s.tickets[c], i, None(1))]);
      SpliceHeld(s, c, i, None(1));
      OneHeld(s.tickets[c][i]);
      NoneHeld(1);
      assert AllHeld(s.tickets)[w] == (AllHeld(t.tickets) + multiset{w})[w];
      TicketIsHeld(t, d, j);
      assert false;
    }
  }

  lemma HeldOnce(s: Client, w: R.Waiter)
    requires Inv(s)
    ensures AllHeld(s.tickets)[w] == if w in s.slots.running || w in s.slots.slots.waiters then 1 else 0
    ensures w in s.slots.slots.waiters ==> w !in s.slots.running
  {
    hide AllHeld, R.InOrder, R.Counting;
    OnceInSequence(s.slots.slots.waiters, w);
  }

  lemma {:induction false} OnceInSequence(s: seq<R.Waiter>, w: R.Waiter)
    requires R.NoRepeats(s)
    ensures multiset(s)[w] == if w in s then 1 else 0
  {
    if s != [] {
      assert s == [s[0]] + s[1..];
      OnceInSequence(s[1..], w);
    }
  }

  lemma {:induction false} AsManyHolders(s: Client, chosen: set<R.Waiter>)
    requires Inv(s) && forall w :: w in chosen ==> w in s.slots.running || w in s.slots.slots.waiters
    ensures |Holders(s, chosen)| == |chosen|
    decreases chosen
  {
    hide Inv, AllHeld;
    if chosen == {} {
      assert Holders(s, chosen) == {};
    } else {
      var w :| w in chosen;
      HeldOnce(s, w);
      var c, i := HeldByATile(s.tickets, w);
      forall d: nat, j: nat | HasTicket(s, d, j) && TicketAt(s, d, j) == w
        ensures (d, j) == (c, i)
      {
        OneHolder(s, c, i, d, j);
      }
      AsManyHolders(s, chosen - {w});
      assert Holders(s, chosen) == Holders(s, chosen - {w}) + {(c, i)};
    }
  }

  lemma NewClientInv()
    ensures Inv(NEW_CLIENT)
  {
    assert AllHeld([]) == multiset{};
  }

  /**
   At most six fetches are under way at any time of any run, and all six slots are in use while a tile waits:
   the tiles with a slot are exactly as many as the counter says.
   */
  lemma AtMostSixFetches(p: Projection, served: P.Served, steps: seq<Step>)
    requires IsRun(p, served, NEW_CLIENT, steps)
    ensures var s := After(p, served, NEW_CLIENT, steps);
            && |Holders(s, s.slots.running)| == s.slots.slots.active <= R.MAX_CONCURRENT_REQUESTS
            && (Holders(s, set w | w in s.slots.slots.waiters) != {} ==>
                  |Holders(s, s.slots.running)| == R.MAX_CONCURRENT_REQUESTS)
  {
    NewClientInv();
    EveryRunKeepsInv(p, served, NEW_CLIENT, steps);
    var s := After(p, served, NEW_CLIENT, steps);
    hide AllHeld, After, IsRun, R.Queueing, R.Granting, R.InOrder;
    AsManyHolders(s, s.slots.running);
  }

  /** When no tile is in flight every slot has been given back. */
  lemma NoSlotLeaks(s: Client)
    requires Inv(s)
    requires forall c: nat, i: nat :: P.HasNode(s.provider, c, i) ==> !s.provider.calls[c].frontier[i].InFlight?
    ensures s.slots.running == {} && s.slots.slots.waiters == [] && s.slots.slots.active == 0
  {
    hide AllHeld, R.Queueing, R.Granting, R.InOrder;
    forall w
      ensures w !in s.slots.running && w !in s.slots.slots.waiters
    {
      HeldOnce(s, w);
      if w in AllHeld(s.tickets) {
        var c, i := HeldByATile(s.tickets, w);
        assert false;
      }
    }
    SomebodyWaits(s.slots.slots.waiters);
  }

  lemma SomebodyWaits(waiters: seq<R.Waiter>)
    ensures waiters == [] || exists w :: w in waiters
  {
    if waiters != [] { assert waiters[0] in waiters; }
  }

  /**
   A waiting tile has its slot or has given up by the time one more fetch has ended than there are requests in
   front of it, whatever the calls, replies, version changes and aborts in between.
   */
  lemma TileWaitIsBounded(p: Projection, served: P.Served, s: Client, steps: seq<Step>, call: nat, index: nat)
    requires Inv(s) && IsRun(p, served, s, steps) && HasTicket(s, call, index)
    requires EndedFetches(steps) > R.IndexOf(s.slots.slots.waiters, TicketAt(s, call, index))
    ensures var slots := After(p, served, s, steps).slots; var w := TicketAt(s, call, index);
            w !in slots.slots.waiters && (w in slots.grants || w in slots.gaveUp)
  {
    hide AllHeld, R.Counting, R.InOrder, R.IndexOf, R.IsRun, R.After, R.Finishes, IsRun, After, EndedFetches;
    var w := TicketAt(s, call, index);
    EveryRunActsOnSlots(p, served, s, steps);
    EveryRunKeepsInv(p, served, s, steps);
    var events := AllSlotEvents(p, served, s, steps);
    TicketIsHeld(s, call, index);
    HeldOnce(s, w);
    if w in s.slots.slots.waiters {
      R.WaitIsBounded(s.slots, events, w);
    } else {
      assert w in s.slots.grants;
      GrantedStays(s.slots, events, w);
    }
  }

  lemma {:induction false} GrantedStays(s: R.World, events: seq<R.Event>, w: R.Waiter)
    requires R.Inv(s) && R.IsRun(s, events) && w in s.grants
    ensures w in R.After(s, events).grants && w !in R.After(s, events).slots.waiters
    decreases |events|
  {
    if events != [] {
      R.NextKeepsInv(s, events[0]);
      GrantedStays(R.Next(s, events[0]), events[1..], w);
    }
  }

  /** An unfinished tile can be visited or answered, or it waits and a fetch that holds a slot can end. */
  lemma NoTileIsStuck(p: Projection, served: P.Served, s: Client, call: nat, index: nat) returns (step: Step)
    requires Inv(s) && P.HasNode(s.provider, call, index) && P.Unfinished(s.provider.calls[call].frontier[index])
    requires forall v: P.Version :: KeyedById(served(v))
    ensures Enabled(p, served, s, step)
    ensures step.EndFetch?
            || (step.OnProvider? && P.OnTile(step.step) && !step.step.Reject?
                && step.step.call == call && step.step.index == index)
  {
    hide AllHeld, R.Granting, R.InOrder;
    if !HasTicket(s, call, index) {
      var inner := A.UnfinishedTileGoesOn(p, served, s.provider, call, index);
      step := OnProvider(inner);
    } else {
      TicketIsHeld(s, call, index);
      HeldOnce(s, TicketAt(s, call, index));
      assert s.slots.running != {};
      var w :| w in s.slots.running;
      HeldOnce(s, w);
      var c, i := HeldByATile(s.tickets, w);
      step := EndFetch(c, i);
    }
  }

  /** Calls and their answers do not depend on how the fetches wait: every run still answers from the catalogue. */
  lemma SlottedRunsAnswerFromCatalogue(p: Projection, cafes: Catalogue, steps: seq<Step>, call: nat)
    requires p.Mercator() && KeyedById(cafes) && IsRun(p, _ => cafes, NEW_CLIENT, steps)
    requires var s := After(p, _ => cafes, NEW_CLIENT, steps).provider; call < |s.calls| && P.Returned(s.calls[call])
    ensures var c := After(p, _ => cafes, NEW_CLIENT, steps).provider.calls[call];
            && P.DistinctIds(P.CallResult(c))
            && (forall k :: k in P.CallResult(c) <==>
                            && k in cafes && k.active && InsideViewport(c.viewport, k.at)
                            && Covered(p, c.viewport, k.at))
  {
    hide IsRun, After, P.IsRun, P.After;
    EveryRunProjects(p, _ => cafes, NEW_CLIENT, steps);
    P.EveryRunAnswersFromCatalogue(p, cafes, AllProviderSteps(steps), call);
  }

  predicate NoRejectOrAbort(steps: seq<Step>) {
    forall i :: 0 <= i < |steps| ==> !steps[i].GiveUp? && (steps[i].OnProvider? ==> !steps[i].step.Reject?)
  }

  lemma {:induction false} ProviderRejectsNothing(steps: seq<Step>)
    requires NoRejectOrAbort(steps)
    ensures A.NoReject(AllProviderSteps(steps))
  {
    if steps != [] {
      assert forall i :: 0 <= i < |steps[1..]| ==> steps[1..][i] == steps[i + 1];
      ProviderRejectsNothing(steps[1..]);
    }
  }

  /** With slots too, a call that nothing rejects or aborts answers unless a deepest tile of it is too dense. */
  lemma SlottedCallAnswers(p: Projection, served: P.Served, cafes: Catalogue, steps: seq<Step>, call: nat)
    requires p.Mercator() && A.Serves(served, cafes) && IsRun(p, served, NEW_CLIENT, steps) && NoRejectOrAbort(steps)
    requires call < |After(p, served, NEW_CLIENT, steps).provider.calls|
    requires P.Finished(After(p, served, NEW_CLIENT, steps).provider.calls[call])
    ensures var c := After(p, served, NEW_CLIENT, steps).provider.calls[call];
            P.Returned(c) || A.TooDense(p, cafes, c)
  {
    hide IsRun, After, P.IsRun, P.After, A.TooDense, P.Returned, P.Finished;
    EveryRunProjects(p, served, NEW_CLIENT, steps);
    ProviderRejectsNothing(steps);
    A.FinishedCallAnswers(p, served, cafes, AllProviderSteps(steps), call);
  }

  // ---------------------------------------------------------------------------------------
  // Termination
  // ---------------------------------------------------------------------------------------

  /** An upper bound on the tile and slot steps still to come, as every tile step can take one ticket. */
  ghost function ClientWork(s: Client): nat {
    2 * P.CallsWork(s.provider.calls) + |s.slots.running| + |s.slots.slots.waiters|
  }

  predicate UsesWork(step: Step) {
    step.OnProvider? ==> P.OnTile(step.step)
  }

  ghost function WorkSteps(steps: seq<Step>): nat {
    if steps == [] then 0 else (if UsesWork(steps[0]) then 1 else 0) + WorkSteps(steps[1..])
  }

  lemma SlotsHeld(s: R.World, e: R.Event)
    requires R.Inv(s) && R.Enabled(s, e)
    requires e.AbortSignal? ==> e.w in s.slots.waiters
    ensures var t := R.Next(s, e);
            |t.running| + |t.slots.waiters| == |s.running| + |s.slots.waiters| + if e.Request? then 1 else -1
  {
    hide R.InOrder, R.Survivors, R.Granting;
    R.NextKeepsInv(s, e);
    if e.Finish? && s.slots.waiters != [] {
      R.FinishWakesFront(s, e.w);
    }
  }

  lemma StepUsesWork(p: Projection, served: P.Served, s: Client, step: Step)
    requires p.Mercator() && P.Inv(p, served, s.provider) && Inv(s) && Enabled(p, served, s, step)
    requires !(step.OnProvider? && step.step.GetCafes?)
    ensures ClientWork(Next(p, served, s, step)) <= ClientWork(s) - if UsesWork(step) then 1 else 0
  {
    hide P.Next, P.Enabled, P.Inv, P.CallsWork, R.Next, R.Inv, R.Enabled, AllHeld, Splice;
    match step
    case OnProvider(inner) =>
      if P.OnTile(inner) {
        P.TileStepUsesWork(p, served, s.provider, inner);
        if Next(p, served, s, step).issued > s.issued {
          RequestAllowed(s);
          SlotsHeld(s.slots, R.Request(s.issued));
        }
      } else {
        OtherFrontiersStay(p, served, s.provider, inner);
      }
    case EndFetch(call, index) =>
      FinishMatches(s.slots, TicketAt(s, call, index));
      SlotsHeld(s.slots, R.Finish(TicketAt(s, call, index)));
    case GiveUp(call, index) =>
      P.TileStepUsesWork(p, served, s.provider, P.Reject(call, index));
      AbortMatches(s.slots, TicketAt(s, call, index));
      SlotsHeld(s.slots, R.AbortSignal(TicketAt(s, call, index)));
  }

  lemma RequestAllowed(s: Client)
    requires Inv(s)
    ensures R.Enabled(s.slots, R.Request(s.issued))
  {
    hide AllHeld, R.Inv, RowsFit;
  }

  lemma OtherFrontiersStay(p: Projection, served: P.Served, s: P.Provider, step: P.Step)
    requires P.Enabled(p, served, s, step) && !P.OnTile(step) && !step.GetCafes?
    ensures P.CallsWork(P.Next(p, served, s, step).calls) == P.CallsWork(s.calls)
  {
    hide P.CallsWork;
    P.SameFrontiersSameWork(s.calls, P.Next(p, served, s, step).calls);
  }

  /** Between new calls the visits, fetches, replies and aborts together never exceed the work at hand. */
  lemma {:induction false} EveryRunTerminates(p: Projection, served: P.Served, s: Client, steps: seq<Step>)
    requires p.Mercator() && P.Inv(p, served, s.provider) && Inv(s) && IsRun(p, served, s, steps)
    requires forall i :: 0 <= i < |steps| && steps[i].OnProvider? ==> !steps[i].step.GetCafes?
    ensures WorkSteps(steps) + ClientWork(After(p, served, s, steps)) <= ClientWork(s)
    decreases |steps|
  {
    hide P.Inv, Inv, Next, Enabled, ClientWork, UsesWork;
    if steps != [] {
      var t := Next(p, served, s, steps[0]);
      StepUsesWork(p, served, s, steps[0]);
      StepKeepsInv(p, served, s, steps[0]);
      StepKeepsProviderInv(p, served, s, steps[0]);
      EveryRunTerminates(p, served, t, steps[1..]);
    }
  }

  lemma StepKeepsProviderInv(p: Projection, served: P.Served, s: Client, step: Step)
    requires p.Mercator() && P.Inv(p, served, s.provider) && Enabled(p, served, s, step)
    ensures P.Inv(p, served, Next(p, served, s, step).provider)
  {
    hide P.Inv, P.Next, P.Enabled, R.Next;
    match step
    case OnProvider(inner) => P.NextKeepsInv(p, served, s.provider, inner);
    case EndFetch(_, _) =>
    case GiveUp(call, index) => P.NextKeepsInv(p, served, s.provider, P.Reject(call, index));
  }
}
