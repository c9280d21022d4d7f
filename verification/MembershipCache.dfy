/**
 The memoised membership derivation: one cached result per KB, keyed on the collection's
 state vector, the trust anchor and a time horizon, and dropped when the local blocklist
 changes.

 The derivation itself is a parameter. A collection is represented by its state vector,
 which determines its op-log.
 */
module MembershipCache {
  import opened Basics

  const U64_MAX: nat := 0xFFFF_FFFF_FFFF_FFFF

  type Time = t: nat | t <= U64_MAX

  /** A membership operation: its identity and the timebox it carries, if any. */
  datatype MemberOp = MemberOp(key: Id, expiresAt: Option<Time>)

  type OpLog = seq<MemberOp>

  /** Derive membership from an op-log, an anchor, the time and the local blocklist. */
  type Derive<M> = (OpLog, Id, Time, set<Id>) -> M

  datatype World<!M> = World(derive: Derive<M>, oplog: (Id, Id) -> OpLog)

  predicate Expired(op: MemberOp, now: Time) {
    op.expiresAt.Some? && op.expiresAt.value <= now
  }

  /** The two times see the same operations expired. */
  predicate SameExpiry(ops: OpLog, s: Time, t: Time) {
    forall i :: 0 <= i < |ops| ==> Expired(ops[i], s) == Expired(ops[i], t)
  }

  /** The derivation uses time only to decide which operations have expired. */
  ghost predicate TimeOnlyExpires<M(!new)>(derive: Derive<M>) {
    forall ops: OpLog, anchor: Id, s: Time, t: Time, blocked: set<Id> {:trigger derive(ops, anchor, s, blocked), derive(ops, anchor, t, blocked)} ::
      SameExpiry(ops, s, t) ==> derive(ops, anchor, s, blocked) == derive(ops, anchor, t, blocked)
  }

  /** `h` is the earliest timebox still in the future at `now`, or the end of time. */
  predicate IsHorizon(ops: OpLog, now: Time, h: Time) {
    && (forall i :: 0 <= i < |ops| && ops[i].expiresAt.Some? && ops[i].expiresAt.value > now ==> h <= ops[i].expiresAt.value)
    && (h == U64_MAX || exists i :: 0 <= i < |ops| && ops[i].expiresAt == Some(h) && h > now)
  }

  method Horizon(ops: OpLog, now: Time) returns (h: Time)
    ensures IsHorizon(ops, now, h)
  {
    h := U64_MAX;
    for i := 0 to |ops|
      invariant IsHorizon(ops[..i], now, h)
    {
      if ops[i].expiresAt.Some? && ops[i].expiresAt.value > now && ops[i].expiresAt.value < h {
        h := ops[i].expiresAt.value;
      }
      assert ops[..i + 1] == ops[..i] + [ops[i]];
      assert ops[..i + 1][i] == ops[i];
      assert forall k :: 0 <= k < i ==> ops[..i + 1][k] == ops[..i][k];
    }
    assert ops[..|ops|] == ops;
  }

  datatype Entry<M> = Entry(sv: Id, anchor: Id, validUntil: Time, result: M)

  datatype State<M> = State(blocklists: map<Id, set<Id>>, entries: map<Id, Entry<M>>)

  function Blocked<M>(s: State<M>, kb: Id): set<Id> {
    if kb in s.blocklists then s.blocklists[kb] else {}
  }

  function Fresh<M>(w: World<M>, s: State<M>, kb: Id, sv: Id, anchor: Id, now: Time): M {
    w.derive(w.oplog(kb, sv), anchor, now, Blocked(s, kb))
  }

  predicate Hit<M>(s: State<M>, kb: Id, sv: Id, anchor: Id, now: Time) {
    kb in s.entries && s.entries[kb].sv == sv && s.entries[kb].anchor == anchor && now < s.entries[kb].validUntil
  }

  datatype Event =
    | Query(kb: Id, sv: Id, anchor: Id, now: Time)
    | Block(kb: Id, principal: Id, storeFails: bool)
    | Unblock(kb: Id, principal: Id, storeFails: bool)

  /** One call, the reply of a query, and the state after it. */
  ghost predicate Step<M>(w: World<M>, s: State<M>, e: Event, reply: Option<M>, s': State<M>) {
    match e
    case Query(kb, sv, anchor, now) =>
      if Hit(s, kb, sv, anchor, now) then reply == Some(s.entries[kb].result) && s' == s
      else
        && reply == Some(Fresh(w, s, kb, sv, anchor, now))
        && kb in s'.entries
        && IsHorizon(w.oplog(kb, sv), now, s'.entries[kb].validUntil)
        && s' == s.(entries := s.entries[kb := Entry(sv, anchor, s'.entries[kb].validUntil, reply.value)])
    case Block(kb, p, fails) =>
      reply == None && s' == if fails then s
                             else State(s.blocklists[kb := Blocked(s, kb) + {p}], s.entries - {kb})
    case Unblock(kb, p, fails) =>
      reply == None && s' == if fails then s
                             else State(if kb in s.blocklists then s.blocklists[kb := s.blocklists[kb] - {p}] else s.blocklists,
                                        s.entries - {kb})
  }

  class Memo<M(==)> {
    const world: World<M>
    var blocklists: map<Id, set<Id>>
    var entries: map<Id, Entry<M>>

    ghost function Now(): State<M>
      reads this
    {
      State(blocklists, entries)
    }

    constructor (world: World<M>)
      ensures this.world == world && Now() == State(map[], map[])
    {
      this.world := world;
      blocklists := map[];
      entries := map[];
    }

    method DerivedMembership(kb: Id, sv: Id, anchor: Id, now: Time) returns (result: M)
      modifies this`entries
      ensures Step(world, old(Now()), Query(kb, sv, anchor, now), Some(result), Now())
    {
      if kb in entries && entries[kb].sv == sv && entries[kb].anchor == anchor && now < entries[kb].validUntil {
        return entries[kb].result;
      }
      var ops := world.oplog(kb, sv);
      var blocked := if kb in blocklists then blocklists[kb] else {};
      result := world.derive(ops, anchor, now, blocked);
      var validUntil := Horizon(ops, now);
      entries := entries[kb := Entry(sv, anchor, validUntil, result)];
    }

    method AddKbBlock(kb: Id, principal: Id, storeFails: bool) returns (ok: bool)
      modifies this
      ensures Step(world, old(Now()), Block(kb, principal, storeFails), None, Now())
      ensures ok == !storeFails
    {
      if storeFails {
        return false;
      }
      blocklists := blocklists[kb := (if kb in blocklists then blocklists[kb] else {}) + {principal}];
      entries := entries - {kb};
      ok := true;
    }

    method RemoveKbBlock(kb: Id, principal: Id, storeFails: bool) returns (ok: bool)
      modifies this
      ensures Step(world, old(Now()), Unblock(kb, principal, storeFails), None, Now())
      ensures ok == !storeFails
    {
      if storeFails {
        return false;
      }
      if kb in blocklists {
        blocklists := blocklists[kb := blocklists[kb] - {principal}];
      }
      entries := entries - {kb};
      ok := true;
    }
  }

  // ---- Which derivation a query is served from ----

  /** What the cache holds for a KB, as far as the calls so far decide it: the key and the time of derivation. */
  datatype Held = Held(sv: Id, anchor: Id, at: Time)

  /** A result derived at `at` is still within its horizon at `now`. */
  predicate BeforeHorizon(ops: OpLog, at: Time, now: Time) {
    && now < U64_MAX
    && forall i :: 0 <= i < |ops| && ops[i].expiresAt.Some? && ops[i].expiresAt.value > at ==> now < ops[i].expiresAt.value
  }

  lemma HorizonDecides(ops: OpLog, at: Time, h: Time, now: Time)
    requires IsHorizon(ops, at, h)
    ensures now < h <==> BeforeHorizon(ops, at, now)
  {
  }

  predicate Serves(oplog: (Id, Id) -> OpLog, held: Option<Held>, kb: Id, sv: Id, anchor: Id, now: Time) {
    held.Some? && held.value.sv == sv && held.value.anchor == anchor && BeforeHorizon(oplog(kb, sv), held.value.at, now)
  }

  function Holding(oplog: (Id, Id) -> OpLog, events: seq<Event>, kb: Id): Option<Held> {
    if events == [] then None
    else
      var before := Holding(oplog, events[..|events| - 1], kb);
      match events[|events| - 1]
      case Query(k, sv, anchor, now) =>
        if k != kb || Serves(oplog, before, kb, sv, anchor, now) then before else Some(Held(sv, anchor, now))
      case Block(k, _, fails) => if k == kb && !fails then None else before
      case Unblock(k, _, fails) => if k == kb && !fails then None else before
  }

  /** When the answer to a query made after `events` was derived. */
  function ServedFrom(oplog: (Id, Id) -> OpLog, events: seq<Event>, q: Event): Time
    requires q.Query?
  {
    var held := Holding(oplog, events, q.kb);
    if Serves(oplog, held, q.kb, q.sv, q.anchor, q.now) then held.value.at else q.now
  }

  /** The cache holds for `kb` exactly what the calls so far decide, derived with the current blocklist. */
  ghost predicate Matches<M>(w: World<M>, s: State<M>, held: Option<Held>, kb: Id) {
    && (kb in s.entries <==> held.Some?)
    && (held.Some? ==>
          var e := s.entries[kb];
          && e.sv == held.value.sv && e.anchor == held.value.anchor
          && IsHorizon(w.oplog(kb, e.sv), held.value.at, e.validUntil)
          && e.result == w.derive(w.oplog(kb, e.sv), e.anchor, held.value.at, Blocked(s, kb)))
  }

  /** One call keeps the cache matched, and answers a query with the derivation at the time it is served from. */
  lemma StepServes<M>(w: World<M>, s: State<M>, events: seq<Event>, e: Event, reply: Option<M>, s': State<M>, kb: Id)
    requires Matches(w, s, Holding(w.oplog, events, kb), kb) && Step(w, s, e, reply, s')
    ensures Matches(w, s', Holding(w.oplog, events + [e], kb), kb)
    ensures e.Query? && e.kb == kb ==>
              reply == Some(w.derive(w.oplog(kb, e.sv), e.anchor, ServedFrom(w.oplog, events, e), Blocked(s, kb)))
  {
    hide IsHorizon, BeforeHorizon;
    assert (events + [e])[..|events|] == events;
    var held := Holding(w.oplog, events, kb);
    if e.Query? && e.kb == kb && held.Some? {
      HorizonDecides(w.oplog(kb, held.value.sv), held.value.at, s.entries[kb].validUntil, e.now);
    }
  }

  /** A run from an empty cache. */
  ghost predicate IsRun<M>(w: World<M>, states: seq<State<M>>, events: seq<Event>, replies: seq<Option<M>>) {
    && |states| == |events| + 1 && |replies| == |events|
    && states[0].entries == map[]
    && forall i :: 0 <= i < |events| ==> Step(w, states[i], events[i], replies[i], states[i + 1])
  }

  lemma {:induction false} RunMatches<M>(w: World<M>, states: seq<State<M>>, events: seq<Event>, replies: seq<Option<M>>, n: nat, kb: Id)
    requires IsRun(w, states, events, replies) && n <= |events|
    ensures Matches(w, states[n], Holding(w.oplog, events[..n], kb), kb)
    decreases n
  {
    hide Step, Matches;
    if n == 0 {
      EmptyMatches(w, states[0], kb);
    } else {
      RunMatches(w, states, events, replies, n - 1, kb);
      StepServes(w, states[n - 1], events[..n - 1], events[n - 1], replies[n - 1], states[n], kb);
      assert events[..n] == events[..n - 1] + [events[n - 1]];
    }
  }

  lemma EmptyMatches<M>(w: World<M>, s: State<M>, kb: Id)
    requires s.entries == map[]
    ensures Matches(w, s, Holding(w.oplog, [], kb), kb)
  {
  }

  /** Whatever the clock does, each query of each run gets the derivation of its own op-log, anchor and blocklist. */
  lemma QueryIsServed<M>(w: World<M>, states: seq<State<M>>, events: seq<Event>, replies: seq<Option<M>>, i: nat)
    requires IsRun(w, states, events, replies) && i < |events| && events[i].Query?
    ensures var q := events[i];
            replies[i] == Some(w.derive(w.oplog(q.kb, q.sv), q.anchor, ServedFrom(w.oplog, events[..i], q), Blocked(states[i], q.kb)))
  {
    hide Step, Matches;
    RunMatches(w, states, events, replies, i, events[i].kb);
    StepServes(w, states[i], events[..i], events[i], replies[i], states[i + 1], events[i].kb);
  }

  // ---- Which queries are fresh ----

  /** No timebox runs out after `now` and up to `t`. */
  predicate NoneBetween(ops: OpLog, now: Time, t: Time) {
    forall i :: 0 <= i < |ops| && ops[i].expiresAt.Some? ==> !(now < ops[i].expiresAt.value <= t)
  }

  /**
   A result derived at `t` and still within its horizon sees at `now` the same operations
   expired if and only if no timebox lies after `now` and up to `t`: always so when the
   clock has not gone back. The roster tells the two times apart otherwise.
   */
  lemma ServableExactly(ops: OpLog, t: Time, now: Time)
    requires t == now || BeforeHorizon(ops, t, now)
    ensures SameExpiry(ops, t, now) <==> NoneBetween(ops, now, t)
    ensures t <= now ==> NoneBetween(ops, now, t)
  {
    if SameExpiry(ops, t, now) {
      forall i | 0 <= i < |ops| && ops[i].expiresAt.Some? ensures !(now < ops[i].expiresAt.value <= t) {
        assert Expired(ops[i], t) == Expired(ops[i], now);
      }
    }
  }

  /** A derivation that shows which operations are live. */
  function Roster(ops: OpLog, anchor: Id, now: Time, blocked: set<Id>): seq<bool> {
    seq(|ops|, i requires 0 <= i < |ops| => !Expired(ops[i], now))
  }

  lemma RosterSees(ops: OpLog, anchor: Id, s: Time, t: Time, blocked: set<Id>)
    ensures SameExpiry(ops, s, t) <==> Roster(ops, anchor, s, blocked) == Roster(ops, anchor, t, blocked)
  {
    var a, b := Roster(ops, anchor, s, blocked), Roster(ops, anchor, t, blocked);
    if a == b {
      forall i | 0 <= i < |ops| ensures Expired(ops[i], s) == Expired(ops[i], t) {
        assert a[i] == b[i];
      }
    }
  }

  lemma RosterIsTimely()
    ensures TimeOnlyExpires(Roster)
  {
    forall ops: OpLog, anchor: Id, s: Time, t: Time, blocked: set<Id> | SameExpiry(ops, s, t)
      ensures Roster(ops, anchor, s, blocked) == Roster(ops, anchor, t, blocked)
    {
    }
  }

  lemma ServedWithinHorizon(oplog: (Id, Id) -> OpLog, events: seq<Event>, q: Event)
    requires q.Query?
    ensures var t := ServedFrom(oplog, events, q);
            t == q.now || BeforeHorizon(oplog(q.kb, q.sv), t, q.now)
  {
  }

  /**
   Whatever the clock does, a query is answered as a fresh derivation would answer it, for
   every derivation that uses time only through expiry, when no timebox lies after its
   time and up to the time it is served from.
   */
  lemma QueryIsFresh<M(!new)>(w: World<M>, states: seq<State<M>>, events: seq<Event>, replies: seq<Option<M>>, i: nat)
    requires TimeOnlyExpires(w.derive) && IsRun(w, states, events, replies) && i < |events| && events[i].Query?
    requires NoneBetween(w.oplog(events[i].kb, events[i].sv), events[i].now, ServedFrom(w.oplog, events[..i], events[i]))
    ensures replies[i] == Some(Fresh(w, states[i], events[i].kb, events[i].sv, events[i].anchor, events[i].now))
  {
    hide IsRun, ServedFrom, NoneBetween, BeforeHorizon, SameExpiry;
    var q := events[i];
    QueryIsServed(w, states, events, replies, i);
    ServedWithinHorizon(w.oplog, events[..i], q);
    ServableExactly(w.oplog(q.kb, q.sv), ServedFrom(w.oplog, events[..i], q), q.now);
  }

  /**
   The condition is exact: for the roster, which uses time only through expiry, a query of a
   run is fresh if and only if no timebox lies after its time and up to the time it is
   served from. Both are decided by the calls alone.
   */
  lemma QueryIsFreshExactly(w: World<seq<bool>>, states: seq<State<seq<bool>>>, events: seq<Event>, replies: seq<Option<seq<bool>>>, i: nat)
    requires w.derive == Roster && IsRun(w, states, events, replies) && i < |events| && events[i].Query?
    ensures TimeOnlyExpires(w.derive)
    ensures replies[i] == Some(Fresh(w, states[i], events[i].kb, events[i].sv, events[i].anchor, events[i].now))
       <==> NoneBetween(w.oplog(events[i].kb, events[i].sv), events[i].now, ServedFrom(w.oplog, events[..i], events[i]))
  {
    hide Step, ServedFrom, NoneBetween, BeforeHorizon, SameExpiry, Roster;
    var q := events[i];
    RosterIsTimely();
    QueryIsServed(w, states, events, replies, i);
    ServedWithinHorizon(w.oplog, events[..i], q);
    var ops, t := w.oplog(q.kb, q.sv), ServedFrom(w.oplog, events[..i], q);
    ServableExactly(ops, t, q.now);
    RosterSees(ops, q.anchor, t, q.now, Blocked(states[i], q.kb));
  }

  /** The latest query time so far. */
  function Clock(events: seq<Event>): Time {
    if events == [] then 0
    else
      var last := events[|events| - 1];
      var before := Clock(events[..|events| - 1]);
      if last.Query? && last.now > before then last.now else before
  }

  /** No query is made at an earlier time than one before it. */
  predicate ClockForward(events: seq<Event>) {
    forall i :: 0 <= i < |events| && events[i].Query? ==> Clock(events[..i]) <= events[i].now
  }

  lemma {:induction false} HeldInThePast(oplog: (Id, Id) -> OpLog, events: seq<Event>, kb: Id)
    ensures Holding(oplog, events, kb).Some? ==> Holding(oplog, events, kb).value.at <= Clock(events)
    decreases |events|
  {
    if events != [] {
      HeldInThePast(oplog, events[..|events| - 1], kb);
    }
  }

  /**
   Every query of every run is answered exactly as a fresh derivation would answer it,
   through any op-log growth, anchor change, block and unblock, as long as the clock does
   not go back.
   */
  lemma MemoIsFresh<M(!new)>(w: World<M>, states: seq<State<M>>, events: seq<Event>, replies: seq<Option<M>>, i: nat)
    requires TimeOnlyExpires(w.derive) && IsRun(w, states, events, replies) && ClockForward(events)
    requires i < |events| && events[i].Query?
    ensures replies[i] == Some(Fresh(w, states[i], events[i].kb, events[i].sv, events[i].anchor, events[i].now))
  {
    hide IsRun;
    var q := events[i];
    HeldInThePast(w.oplog, events[..i], q.kb);
    ServedWithinHorizon(w.oplog, events[..i], q);
    ServableExactly(w.oplog(q.kb, q.sv), ServedFrom(w.oplog, events[..i], q), q.now);
    QueryIsFresh(w, states, events, replies, i);
  }

  // ---- The blocklist ----

  /** What the last accepted block or unblock of `p` at `kb` said. */
  function LastSay(events: seq<Event>, kb: Id, p: Id): Option<bool> {
    if events == [] then None
    else
      var last := events[|events| - 1];
      if !last.Query? && last.kb == kb && last.principal == p && !last.storeFails then Some(last.Block?)
      else LastSay(events[..|events| - 1], kb, p)
  }

  lemma BlockStep<M>(w: World<M>, s: State<M>, e: Event, reply: Option<M>, s': State<M>, kb: Id, p: Id)
    requires Step(w, s, e, reply, s')
    ensures p in Blocked(s', kb) <==> (match LastSay([e], kb, p) case Some(b) => b case None => p in Blocked(s, kb))
  {
    hide IsHorizon;
  }

  /** A principal is blocked at a KB exactly when the last accepted call about it there was a block, or there was none and it was blocked from the start. */
  lemma {:induction false} BlockedExactly<M>(w: World<M>, states: seq<State<M>>, events: seq<Event>, replies: seq<Option<M>>, n: nat, kb: Id, p: Id)
    requires IsRun(w, states, events, replies) && n <= |events|
    ensures p in Blocked(states[n], kb) <==>
            (match LastSay(events[..n], kb, p) case Some(b) => b case None => p in Blocked(states[0], kb))
    decreases n
  {
    hide Step;
    if n > 0 {
      BlockedExactly(w, states, events, replies, n - 1, kb, p);
      BlockStep(w, states[n - 1], events[n - 1], replies[n - 1], states[n], kb, p);
      assert events[..n][..n - 1] == events[..n - 1];
      assert [events[n - 1]][..0] == [];
    }
  }

  /**
   With an empty blocklist at the start, every query of every run with a forward clock is
   answered by deriving at its own time without the principals whose last accepted call
   there was a block, and no others.
   */
  lemma QueryFollowsBlocks<M(!new)>(w: World<M>, states: seq<State<M>>, events: seq<Event>, replies: seq<Option<M>>, i: nat, blocked: set<Id>)
    requires TimeOnlyExpires(w.derive) && IsRun(w, states, events, replies) && ClockForward(events)
    requires i < |events| && events[i].Query? && states[0].blocklists == map[]
    requires forall p :: p in blocked <==> LastSay(events[..i], events[i].kb, p) == Some(true)
    ensures var q := events[i]; replies[i] == Some(w.derive(w.oplog(q.kb, q.sv), q.anchor, q.now, blocked))
  {
    hide Step, ClockForward, TimeOnlyExpires, LastSay;
    var kb := events[i].kb;
    MemoIsFresh(w, states, events, replies, i);
    forall p ensures p in blocked <==> p in Blocked(states[i], kb) {
      BlockedExactly(w, states, events, replies, i, kb, p);
    }
    assert blocked == Blocked(states[i], kb);
  }

  /**
   When the clock goes back past a timebox the cache answers with what held later: a query
   after the timebox, then one before it, gives the second caller the first one's answer.
   */
  lemma ClockBackServesStale(w: World<seq<bool>>, kb: Id, sv: Id, anchor: Id, e: Time)
    returns (s1: State<seq<bool>>, stale: seq<bool>)
    requires w.derive == Roster && 0 < e < U64_MAX
    requires w.oplog(kb, sv) == [MemberOp([], Some(e))]
    ensures Step(w, State(map[], map[]), Query(kb, sv, anchor, e), Some(stale), s1)
    ensures Step(w, s1, Query(kb, sv, anchor, e - 1), Some(stale), s1)
    ensures stale != Fresh(w, s1, kb, sv, anchor, e - 1)
    ensures TimeOnlyExpires(w.derive)
  {
    RosterIsTimely();
    var ops := w.oplog(kb, sv);
    var s0: State<seq<bool>> := State(map[], map[]);
    stale := Fresh(w, s0, kb, sv, anchor, e);
    s1 := s0.(entries := map[kb := Entry(sv, anchor, U64_MAX, stale)]);
    assert IsHorizon(ops, e, U64_MAX);
    assert s1 == s0.(entries := s0.entries[kb := Entry(sv, anchor, U64_MAX, stale)]);
    assert Step(w, s0, Query(kb, sv, anchor, e), Some(stale), s1);
    assert Hit(s1, kb, sv, anchor, e - 1);
    assert Step(w, s1, Query(kb, sv, anchor, e - 1), Some(stale), s1);
    assert stale == Roster(ops, anchor, e, {}) && !stale[0];
    assert Roster(ops, anchor, e - 1, {})[0];
  }
}
