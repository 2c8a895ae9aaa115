/**
 The global rate-limit row of the user submissions
 (`_claim_user_contribution_slot` and its three callers in backend/app/api/routes.py).

 A claim is one atomic upsert, so concurrent requests are some sequence of claims, carrying
 whatever clock readings they carry.
 */
module ContributionLimit {
  import opened Outcomes

  const USER_CONTRIBUTION_BUCKET_SEC := 60
  const USER_FEEDBACK_MAX_PER_BUCKET := 120
  const USER_PLACE_REPORT_MAX_PER_BUCKET := 30

  datatype Kind = Feedback | PlaceReport

  datatype Row = Row(bucketEpoch: int, submissionCount: int)

  type Table = map<Kind, Row>

  /** Python's `int` of a float: truncation towards zero. */
  function Truncate(r: real): int {
    if r >= 0.0 then r.Floor else -((-r).Floor)
  }

  /** `//` floors, as `/` by a positive divisor does here. */
  function BucketEpoch(timestamp: real): int {
    Truncate(timestamp) / USER_CONTRIBUTION_BUCKET_SEC * USER_CONTRIBUTION_BUCKET_SEC
  }

  /** The upsert: the new table, and whether a row came back. */
  function ClaimSlot(table: Table, kind: Kind, limit: int, timestamp: real): (Table, bool) {
    var bucket := BucketEpoch(timestamp);
    if kind !in table then (table[kind := Row(bucket, 1)], true)
    else
      var row := table[kind];
      if row.bucketEpoch < bucket || (row.bucketEpoch == bucket && row.submissionCount < limit) then
        (table[kind := Row(bucket, if row.bucketEpoch == bucket then row.submissionCount + 1 else 1)], true)
      else (table, false)
  }

  // ---------------------------------------------------------------------------------------
  // Sequences of claims
  // ---------------------------------------------------------------------------------------

  datatype Claim = Claim(kind: Kind, timestamp: real)

  type Limits = Kind -> int

  function AfterClaims(limits: Limits, claims: seq<Claim>): Table {
    if claims == [] then map[]
    else
      var last := claims[|claims| - 1];
      ClaimSlot(AfterClaims(limits, claims[..|claims| - 1]), last.kind, limits(last.kind), last.timestamp).0
  }

  /** The last claim of the sequence was granted. */
  predicate LastGranted(limits: Limits, claims: seq<Claim>)
    requires claims != []
  {
    var last := claims[|claims| - 1];
    ClaimSlot(AfterClaims(limits, claims[..|claims| - 1]), last.kind, limits(last.kind), last.timestamp).1
  }

  /** Granted claims of a kind whose clock reading is in the selection. */
  ghost function Granted(limits: Limits, claims: seq<Claim>, kind: Kind, selected: real -> bool): nat {
    if claims == [] then 0
    else
      var last := claims[|claims| - 1];
      Granted(limits, claims[..|claims| - 1], kind, selected)
      + (if LastGranted(limits, claims) && last.kind == kind && selected(last.timestamp) then 1 else 0)
  }

  ghost function GrantedInBucket(limits: Limits, claims: seq<Claim>, kind: Kind, bucket: int): nat {
    Granted(limits, claims, kind, t => BucketEpoch(t) == bucket)
  }

  /** The grants one bucket can give: a first claim is never refused. */
  function Capacity(limit: int): int {
    if limit < 1 then 1 else limit
  }

  ghost predicate RowCounts(limits: Limits, claims: seq<Claim>, kind: Kind) {
    var table := AfterClaims(limits, claims);
    if kind !in table then forall bucket :: GrantedInBucket(limits, claims, kind, bucket) == 0
    else
      && table[kind].submissionCount == GrantedInBucket(limits, claims, kind, table[kind].bucketEpoch)
      && (forall bucket :: bucket > table[kind].bucketEpoch ==> GrantedInBucket(limits, claims, kind, bucket) == 0)
      && (forall bucket :: GrantedInBucket(limits, claims, kind, bucket) <= Capacity(limits(kind)))
  }

  lemma OneMoreClaim(limits: Limits, claims: seq<Claim>, claim: Claim, kind: Kind, bucket: int)
    ensures AfterClaims(limits, claims + [claim]) ==
            ClaimSlot(AfterClaims(limits, claims), claim.kind, limits(claim.kind), claim.timestamp).0
    ensures GrantedInBucket(limits, claims + [claim], kind, bucket) ==
            GrantedInBucket(limits, claims, kind, bucket)
            + (if claim.kind == kind && BucketEpoch(claim.timestamp) == bucket
                  && ClaimSlot(AfterClaims(limits, claims), kind, limits(kind), claim.timestamp).1 then 1 else 0)
  {
    assert (claims + [claim])[..|claims|] == claims;
  }

  /**
   After any claims at any clock readings, also backward ones, the stored row counts the
   grants of its bucket, no later bucket has any, and no bucket has more than its capacity.
   */
  lemma {:induction false} RowCountsGrants(limits: Limits, claims: seq<Claim>, kind: Kind)
    ensures RowCounts(limits, claims, kind)
  {
    if claims == [] {
    } else {
      var before, claim := claims[..|claims| - 1], claims[|claims| - 1];
      assert claims == before + [claim];
      RowCountsGrants(limits, before, kind);
      forall bucket
        ensures GrantedInBucket(limits, claims, kind, bucket) ==
                GrantedInBucket(limits, before, kind, bucket)
                + (if claim.kind == kind && BucketEpoch(claim.timestamp) == bucket
                      && ClaimSlot(AfterClaims(limits, before), kind, limits(kind), claim.timestamp).1 then 1 else 0)
      {
        OneMoreClaim(limits, before, claim, kind, bucket);
      }
      OneMoreClaim(limits, before, claim, kind, 0);
    }
  }

  /** The stored bucket of a kind never goes back. */
  lemma StoredBucketNeverDecreases(limits: Limits, claims: seq<Claim>, more: seq<Claim>, kind: Kind)
    requires kind in AfterClaims(limits, claims)
    ensures kind in AfterClaims(limits, claims + more)
    ensures AfterClaims(limits, claims)[kind].bucketEpoch <= AfterClaims(limits, claims + more)[kind].bucketEpoch
  {
    if more == [] {
      assert claims + more == claims;
    } else {
      var init, last := more[..|more| - 1], more[|more| - 1];
      StoredBucketNeverDecreases(limits, claims, init, kind);
      assert claims + more == (claims + init) + [last];
      OneMoreClaim(limits, claims + init, last, kind, 0);
    }
  }

  /** Clock readings less than a minute apart fall into one bucket or two neighbouring ones. */
  lemma MinuteSpansTwoBuckets(start: real, t: real)
    requires start <= t < start + 60.0
    ensures BucketEpoch(t) == BucketEpoch(start)
            || BucketEpoch(t) == BucketEpoch(start) + USER_CONTRIBUTION_BUCKET_SEC
  {
    var a, b := Truncate(start), Truncate(t);
    assert a <= b <= a + 60;
  }

  lemma {:induction false} SelectionsAdd(
      limits: Limits, claims: seq<Claim>, kind: Kind, all: real -> bool, one: real -> bool, other: real -> bool)
    requires forall t: real :: all(t) ==> one(t) || other(t)
    ensures Granted(limits, claims, kind, all) <=
            Granted(limits, claims, kind, one) + Granted(limits, claims, kind, other)
  {
    hide LastGranted;
    if claims != [] {
      SelectionsAdd(limits, claims[..|claims| - 1], kind, all, one, other);
    }
  }

  /** Any span of sixty seconds of clock readings is granted at most twice the capacity. */
  lemma MinuteBudget(limits: Limits, claims: seq<Claim>, kind: Kind, start: real)
    ensures Granted(limits, claims, kind, t => start <= t < start + 60.0) <= 2 * Capacity(limits(kind))
  {
    var bucket := BucketEpoch(start);
    RowCountsGrants(limits, claims, kind);
    forall t: real | start <= t < start + 60.0
      ensures BucketEpoch(t) == bucket || BucketEpoch(t) == bucket + USER_CONTRIBUTION_BUCKET_SEC
    {
      MinuteSpansTwoBuckets(start, t);
    }
    SelectionsAdd(limits, claims, kind, t => start <= t < start + 60.0,
                  t => BucketEpoch(t) == bucket, t => BucketEpoch(t) == bucket + USER_CONTRIBUTION_BUCKET_SEC);
    assert GrantedInBucket(limits, claims, kind, bucket) <= Capacity(limits(kind));
    assert GrantedInBucket(limits, claims, kind, bucket + USER_CONTRIBUTION_BUCKET_SEC) <= Capacity(limits(kind));
  }

  ghost predicate BucketWithin(limit: int, claims: seq<Claim>, kind: Kind, bucket: int) {
    GrantedInBucket(_ => limit, claims, kind, bucket) <= limit
  }

  /** The bound of `limit` grants per bucket holds for every sequence of claims exactly when it is positive. */
  lemma LimitIsKeptWhenPositive(limit: int)
    ensures (forall claims: seq<Claim>, kind: Kind, bucket: int :: BucketWithin(limit, claims, kind, bucket))
            <==> limit >= 1
  {
    if limit >= 1 {
      forall claims: seq<Claim>, kind: Kind, bucket: int
        ensures BucketWithin(limit, claims, kind, bucket)
      {
        RowCountsGrants(_ => limit, claims, kind);
      }
    } else {
      var claims := [Claim(Feedback, 0.0)];
      OneMoreClaim(_ => limit, [], claims[0], Feedback, 0);
      assert [] + claims == claims;
      assert !BucketWithin(limit, claims, Feedback, 0);
    }
  }

  // ---------------------------------------------------------------------------------------
  // The three submission handlers
  // ---------------------------------------------------------------------------------------

  datatype Form = MissingReport | CafeFeedback(cafeId: int) | ExistingReport(cafeId: int)

  /** What a handler answers; `Failed` is a submission that could not be stored after its claim. */
  datatype Status = Accepted | NotFound | RateLimited | Unavailable | Failed

  function KindOf(form: Form): Kind {
    if form.CafeFeedback? then Feedback else PlaceReport
  }

  function ConfiguredLimit(kind: Kind): int {
    match kind
    case Feedback => USER_FEEDBACK_MAX_PER_BUCKET
    case PlaceReport => USER_PLACE_REPORT_MAX_PER_BUCKET
  }

  /** One request: what the handler reads, and whether storing the submission succeeds. */
  datatype Request = Request(
    form: Form, timestamp: real, enabled: bool, activeCafes: set<int>, stores: bool)

  /** The request gets as far as its claim. */
  predicate ReachesClaim(r: Request) {
    r.enabled && (r.form.MissingReport? || r.form.cafeId in r.activeCafes)
  }

  datatype Db = Db(rateLimits: Table, submissions: seq<Form>)

  /** The claim is committed on its own, so a failing store does not give it back. */
  function Handle(db: Db, r: Request): (Db, Status) {
    if !r.enabled then (db, Unavailable)
    else if !r.form.MissingReport? && r.form.cafeId !in r.activeCafes then (db, NotFound)
    else
      var kind := KindOf(r.form);
      var (table, granted) := ClaimSlot(db.rateLimits, kind, ConfiguredLimit(kind), r.timestamp);
      if !granted then (db, RateLimited)
      else if !r.stores then (db.(rateLimits := table), Failed)
      else (Db(table, db.submissions + [r.form]), Accepted)
  }

  /** Every stored row counts at least one submission and no more than its limit allows. */
  ghost predicate WithinLimits(table: Table) {
    forall kind :: kind in table ==> 1 <= table[kind].submissionCount <= Capacity(ConfiguredLimit(kind))
  }

  /** The row leaves no room for a claim at this clock reading. */
  predicate Full(table: Table, kind: Kind, limit: int, now: real) {
    && kind in table
    && (table[kind].bucketEpoch > BucketEpoch(now)
        || (table[kind].bucketEpoch == BucketEpoch(now) && table[kind].submissionCount >= limit))
  }

  class Session {
    var rateLimits: Table
    var submissions: seq<Form>
    ghost var requests: seq<Request>

    /** The session is where its requests have brought it. */
    ghost predicate Valid()
      reads this
    {
      State() == AfterRequests(requests)
    }

    constructor ()
      ensures Valid() && requests == []
    {
      rateLimits, submissions, requests := map[], [], [];
    }

    function State(): Db
      reads this
    {
      Db(rateLimits, submissions)
    }

    method ClaimUserContributionSlot(kind: Kind, limit: int, now: real) returns (granted: bool)
      modifies this`rateLimits
      ensures (rateLimits, granted) == ClaimSlot(old(rateLimits), kind, limit, now)
      ensures granted <==> !Full(old(rateLimits), kind, limit, now)
      ensures granted ==> kind in rateLimits && rateLimits[kind].bucketEpoch == BucketEpoch(now)
      ensures forall k :: k in old(rateLimits) ==>
                            k in rateLimits && rateLimits[k].bucketEpoch >= old(rateLimits[k].bucketEpoch)
      ensures old(WithinLimits(rateLimits)) && limit == ConfiguredLimit(kind) ==> WithinLimits(rateLimits)
    {
      var bucket := BucketEpoch(now);
      if kind !in rateLimits {
        rateLimits := rateLimits[kind := Row(bucket, 1)];
        return true;
      }
      var row := rateLimits[kind];
      granted := row.bucketEpoch < bucket || (row.bucketEpoch == bucket && row.submissionCount < limit);
      if granted {
        rateLimits := rateLimits[kind := Row(bucket, if row.bucketEpoch == bucket then row.submissionCount + 1 else 1)];
      }
    }

    method Submit(r: Request) returns (status: Status)
      requires Valid()
      modifies this
      ensures Valid() && requests == old(requests) + [r]
      ensures (State(), status) == Handle(old(State()), r)
      ensures submissions == if status == Accepted then old(submissions) + [r.form] else old(submissions)
      ensures status == RateLimited <==>
              ReachesClaim(r) && Full(old(rateLimits), KindOf(r.form), ConfiguredLimit(KindOf(r.form)), r.timestamp)
      ensures status in {Unavailable, NotFound, RateLimited} ==> State() == old(State())
      ensures WithinLimits(rateLimits)
      ensures forall kind, start: real :: AcceptedInMinute(requests, kind, start) <= 2 * ConfiguredLimit(kind)
    {
      OneMoreRequest(requests, r);
      StoredRowsWithinLimits(requests);
      requests := requests + [r];
      AnyMinuteIsWithin(requests);
      if !r.enabled { return Unavailable; }
      if !r.form.MissingReport? && r.form.cafeId !in r.activeCafes { return NotFound; }
      var kind := KindOf(r.form);
      var granted := ClaimUserContributionSlot(kind, ConfiguredLimit(kind), r.timestamp);
      if !granted { return RateLimited; }
      if !r.stores { return Failed; }
      submissions := submissions + [r.form];
      status := Accepted;
    }
  }

  ghost function AfterRequests(requests: seq<Request>): Db {
    if requests == [] then Db(map[], [])
    else Handle(AfterRequests(requests[..|requests| - 1]), requests[|requests| - 1]).0
  }

  /** The claims a sequence of requests makes. */
  ghost function ClaimsOf(requests: seq<Request>): seq<Claim> {
    if requests == [] then []
    else
      var last := requests[|requests| - 1];
      ClaimsOf(requests[..|requests| - 1])
      + (if ReachesClaim(last) then [Claim(KindOf(last.form), last.timestamp)] else [])
  }

  /** Requests of a kind, with a clock reading in the selection, that were answered as accepted. */
  ghost function AcceptedCount(requests: seq<Request>, kind: Kind, selected: real -> bool): nat {
    if requests == [] then 0
    else
      var before, last := requests[..|requests| - 1], requests[|requests| - 1];
      AcceptedCount(before, kind, selected)
      + (if Handle(AfterRequests(before), last).1 == Accepted && KindOf(last.form) == kind && selected(last.timestamp)
         then 1 else 0)
  }

  ghost function AcceptedInMinute(requests: seq<Request>, kind: Kind, start: real): nat {
    AcceptedCount(requests, kind, t => start <= t < start + 60.0)
  }

  lemma AnyMinuteIsWithin(requests: seq<Request>)
    ensures forall kind, start: real :: AcceptedInMinute(requests, kind, start) <= 2 * ConfiguredLimit(kind)
  {
    forall kind, start: real
      ensures AcceptedInMinute(requests, kind, start) <= 2 * ConfiguredLimit(kind)
    {
      SubmissionsPerMinute(requests, kind, start);
    }
  }

  lemma {:induction false} StoredRowsWithinLimits(requests: seq<Request>)
    ensures WithinLimits(AfterRequests(requests).rateLimits)
  {
    if requests != [] {
      StoredRowsWithinLimits(requests[..|requests| - 1]);
    }
  }

  ghost function StoredCount(submissions: seq<Form>, kind: Kind): nat {
    if submissions == [] then 0
    else StoredCount(submissions[..|submissions| - 1], kind)
         + (if KindOf(submissions[|submissions| - 1]) == kind then 1 else 0)
  }

  /** One more request makes one more claim at most. */
  lemma OneMoreRequest(before: seq<Request>, r: Request)
    ensures AfterRequests(before + [r]) == Handle(AfterRequests(before), r).0
    ensures ClaimsOf(before + [r]) ==
            if ReachesClaim(r) then ClaimsOf(before) + [Claim(KindOf(r.form), r.timestamp)] else ClaimsOf(before)
  {
    assert (before + [r])[..|before|] == before;
  }

  /** The rate-limit rows see exactly the claims, whatever happens to the submissions. */
  lemma {:induction false} RequestsActThroughClaims(requests: seq<Request>)
    ensures AfterRequests(requests).rateLimits == AfterClaims(ConfiguredLimit, ClaimsOf(requests))
  {
    if requests == [] {
    } else {
      var before, last := requests[..|requests| - 1], requests[|requests| - 1];
      assert requests == before + [last];
      RequestsActThroughClaims(before);
      OneMoreRequest(before, last);
      if ReachesClaim(last) {
        var claim := Claim(KindOf(last.form), last.timestamp);
        OneMoreClaim(ConfiguredLimit, ClaimsOf(before), claim, claim.kind, 0);
      }
    }
  }

  /** The stored submissions are the accepted requests. */
  lemma {:induction false} StoredAreAccepted(requests: seq<Request>, kind: Kind)
    ensures StoredCount(AfterRequests(requests).submissions, kind) == AcceptedCount(requests, kind, _ => true)
  {
    hide ClaimSlot;
    if requests == [] {
    } else {
      var before, last := requests[..|requests| - 1], requests[|requests| - 1];
      StoredAreAccepted(before, kind);
      var submissions := AfterRequests(before).submissions;
      assert (submissions + [last.form])[..|submissions|] == submissions;
    }
  }

  /** Accepted requests never outnumber the granted claims. */
  lemma {:induction false} AcceptedWithinGrants(requests: seq<Request>, kind: Kind, selected: real -> bool)
    ensures AcceptedCount(requests, kind, selected) <= Granted(ConfiguredLimit, ClaimsOf(requests), kind, selected)
  {
    hide ClaimSlot, AfterClaims;
    if requests == [] {
    } else {
      var before, last := requests[..|requests| - 1], requests[|requests| - 1];
      assert requests == before + [last];
      AcceptedWithinGrants(before, kind, selected);
      RequestsActThroughClaims(before);
      OneMoreRequest(before, last);
      if ReachesClaim(last) {
        assert ClaimsOf(requests)[..|ClaimsOf(before)|] == ClaimsOf(before);
      }
    }
  }

  /** No sixty-second span of clock readings stores more than twice the configured limit. */
  lemma SubmissionsPerMinute(requests: seq<Request>, kind: Kind, start: real)
    ensures AcceptedInMinute(requests, kind, start) <= 2 * ConfiguredLimit(kind)
  {
    AcceptedWithinGrants(requests, kind, t => start <= t < start + 60.0);
    MinuteBudget(ConfiguredLimit, ClaimsOf(requests), kind, start);
  }

  // ---------------------------------------------------------------------------------------
  // Who is limited
  // ---------------------------------------------------------------------------------------

  /** A bucket is a minute: it starts at a multiple of sixty and holds the readings of the next sixty seconds. */
  lemma BucketIsMinute(timestamp: real)
    requires timestamp >= 0.0
    ensures var bucket := BucketEpoch(timestamp);
            bucket % 60 == 0 && bucket as real <= timestamp < (bucket + 60) as real
  {
    var seconds := timestamp.Floor;
    assert seconds == seconds / 60 * 60 + seconds % 60;
  }

  /** Earlier requests of the group, feedback or place reports, that used up a slot of the bucket. */
  ghost function Charged(requests: seq<Request>, feedback: bool, bucket: int): nat {
    if requests == [] then 0
    else
      var before, last := requests[..|requests| - 1], requests[|requests| - 1];
      Charged(before, feedback, bucket)
      + (if last.form.CafeFeedback? == feedback && BucketEpoch(last.timestamp) == bucket
            && Handle(AfterRequests(before), last).1 in {Accepted, Failed} then 1 else 0)
  }

  /** The group of forms that share a row. */
  function GroupKind(feedback: bool): Kind {
    if feedback then Feedback else PlaceReport
  }

  lemma {:induction false} ChargedAreGrants(requests: seq<Request>, feedback: bool, bucket: int)
    ensures Charged(requests, feedback, bucket)
         == GrantedInBucket(ConfiguredLimit, ClaimsOf(requests), GroupKind(feedback), bucket)
  {
    if requests == [] {
    } else {
      var before, last := requests[..|requests| - 1], requests[|requests| - 1];
      assert requests == before + [last];
      ChargedAreGrants(before, feedback, bucket);
      RequestsActThroughClaims(before);
      OneMoreRequest(before, last);
      if ReachesClaim(last) {
        var claim := Claim(KindOf(last.form), last.timestamp);
        OneMoreClaim(ConfiguredLimit, ClaimsOf(before), claim, GroupKind(feedback), bucket);
      }
    }
  }

  /** A stored row has at least one grant in its bucket. */
  lemma {:induction false} RowHasGrant(limits: Limits, claims: seq<Claim>, kind: Kind)
    ensures kind in AfterClaims(limits, claims) ==> AfterClaims(limits, claims)[kind].submissionCount >= 1
  {
    if claims != [] { RowHasGrant(limits, claims[..|claims| - 1], kind); }
  }

  /** A claim is granted exactly when no later bucket has a grant, and its own has none or less than the limit. */
  lemma ClaimIsGrantedExactly(limits: Limits, claims: seq<Claim>, kind: Kind, timestamp: real)
    ensures var bucket := BucketEpoch(timestamp);
            ClaimSlot(AfterClaims(limits, claims), kind, limits(kind), timestamp).1 <==>
            && (forall later :: later > bucket ==> GrantedInBucket(limits, claims, kind, later) == 0)
            && (GrantedInBucket(limits, claims, kind, bucket) == 0
                || GrantedInBucket(limits, claims, kind, bucket) < limits(kind))
  {
    hide BucketEpoch, Granted, AfterClaims;
    RowCountsGrants(limits, claims, kind);
    RowHasGrant(limits, claims, kind);
  }

  /**
   A request that reaches its claim is limited exactly when a later minute was already charged for its group, or
   its own minute was charged 120 times for feedback, or 30 times for place reports of both forms together.
   */
  lemma RequestIsLimitedExactly(requests: seq<Request>, r: Request)
    requires ReachesClaim(r)
    ensures var feedback, bucket := r.form.CafeFeedback?, BucketEpoch(r.timestamp);
            Handle(AfterRequests(requests), r).1 == RateLimited <==>
            || (exists later :: later > bucket && Charged(requests, feedback, later) > 0)
            || Charged(requests, feedback, bucket) >= if feedback then 120 else 30
  {
    hide BucketEpoch, AfterClaims, AfterRequests, Charged, Granted, ClaimSlot;
    var feedback := r.form.CafeFeedback?;
    RequestsActThroughClaims(requests);
    ClaimIsGrantedExactly(ConfiguredLimit, ClaimsOf(requests), GroupKind(feedback), r.timestamp);
    forall bucket
      ensures Charged(requests, feedback, bucket)
           == GrantedInBucket(ConfiguredLimit, ClaimsOf(requests), GroupKind(feedback), bucket)
    {
      ChargedAreGrants(requests, feedback, bucket);
    }
    hide GrantedInBucket;
    var kind, bucket := KindOf(r.form), BucketEpoch(r.timestamp);
    assert kind == GroupKind(feedback) && ConfiguredLimit(kind) == if feedback then 120 else 30;
    var claim := ClaimSlot(AfterRequests(requests).rateLimits, kind, ConfiguredLimit(kind), r.timestamp);
    assert Handle(AfterRequests(requests), r).1 == RateLimited <==> !claim.1;
    assert claim.1 <==>
           && (forall later ::
                 later > bucket ==> GrantedInBucket(ConfiguredLimit, ClaimsOf(requests), kind, later) == 0)
           && GrantedInBucket(ConfiguredLimit, ClaimsOf(requests), kind, bucket) < ConfiguredLimit(kind);
    assert Charged(requests, feedback, bucket) == GrantedInBucket(ConfiguredLimit, ClaimsOf(requests), kind, bucket);
    if !claim.1 && Charged(requests, feedback, bucket) < ConfiguredLimit(kind) {
      var later :| later > bucket && GrantedInBucket(ConfiguredLimit, ClaimsOf(requests), kind, later) != 0;
      assert Charged(requests, feedback, later) > 0;
    }
  }

  /** No sixty seconds store more than 240 feedbacks, or more than 60 place reports of both forms together. */
  lemma FormsPerMinute(requests: seq<Request>, start: real)
    ensures AcceptedForms(requests, true, start) <= 240 && AcceptedForms(requests, false, start) <= 60
  {
    FormsAreKinds(requests, true, start);
    FormsAreKinds(requests, false, start);
    SubmissionsPerMinute(requests, Feedback, start);
    SubmissionsPerMinute(requests, PlaceReport, start);
  }

  /** The accepted feedbacks, or else the accepted place reports, with a clock reading in the minute. */
  ghost function AcceptedForms(requests: seq<Request>, feedback: bool, start: real): nat {
    if requests == [] then 0
    else
      var before, last := requests[..|requests| - 1], requests[|requests| - 1];
      AcceptedForms(before, feedback, start)
      + (if Handle(AfterRequests(before), last).1 == Accepted && last.form.CafeFeedback? == feedback
            && start <= last.timestamp < start + 60.0 then 1 else 0)
  }

  lemma {:induction false} FormsAreKinds(requests: seq<Request>, feedback: bool, start: real)
    ensures AcceptedForms(requests, feedback, start) == AcceptedInMinute(requests, GroupKind(feedback), start)
  {
    hide ClaimSlot;
    if requests != [] { FormsAreKinds(requests[..|requests| - 1], feedback, start); }
  }
}
