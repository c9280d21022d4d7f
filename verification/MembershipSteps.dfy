/**
 The membership cache with its calls taken apart: a query that misses reads the blocklist
 and, later, inserts what it derived; a block or unblock changes the list and, later, drops
 the entry. Steps of any number of callers interleave. `MembershipCache` has the calls
 atomic.
 */
module MembershipSteps {
  import opened Basics

  /** A query that missed: its KB and the blocklist it read. */
  datatype Deriving = Deriving(kb: Id, blocked: set<Id>)

  /** `entries` holds the blocklist each cached result was derived with; `due` the drops still to come. */
  datatype World = World(
    lists: map<Id, set<Id>>,
    entries: map<Id, set<Id>>,
    deriving: map<nat, Deriving>,
    due: multiset<Id>)

  datatype Action =
    | ReadList(q: nat, kb: Id)
    | Insert(q: nat)
    | Change(kb: Id, blocked: set<Id>)
    | Invalidate(kb: Id)

  const INITIAL := World(map[], map[], map[], multiset{})

  function Blocked(w: World, kb: Id): set<Id> {
    if kb in w.lists then w.lists[kb] else {}
  }

  predicate Enabled(w: World, a: Action) {
    match a
    case ReadList(q, _) => q !in w.deriving
    case Insert(q) => q in w.deriving
    case Change(_, _) => true
    case Invalidate(kb) => kb in w.due
  }

  function Exec(w: World, a: Action): World
    requires Enabled(w, a)
  {
    match a
    case ReadList(q, kb) => w.(deriving := w.deriving[q := Deriving(kb, Blocked(w, kb))])
    case Insert(q) =>
      w.(entries := w.entries[w.deriving[q].kb := w.deriving[q].blocked], deriving := w.deriving - {q})
    case Change(kb, blocked) => w.(lists := w.lists[kb := blocked], due := w.due + multiset{kb})
    case Invalidate(kb) => w.(entries := w.entries - {kb}, due := w.due - multiset{kb})
  }

  predicate Legal(w: World, actions: seq<Action>)
    decreases |actions|
  {
    actions == [] || (Enabled(w, actions[0]) && Legal(Exec(w, actions[0]), actions[1..]))
  }

  function Run(w: World, actions: seq<Action>): World
    requires Legal(w, actions)
    decreases |actions|
  {
    if actions == [] then w else Run(Exec(w, actions[0]), actions[1..])
  }

  /** The cached result was derived with the current blocklist, or a drop is still to come. */
  predicate Right(w: World, kb: Id) {
    (kb in w.entries ==> w.entries[kb] == Blocked(w, kb)) || kb in w.due
  }

  /** A result is inserted only if the list has not changed since it was read, or a drop is still to come. */
  predicate Timely(w: World, a: Action, kb: Id) {
    a.Insert? && a.q in w.deriving && w.deriving[a.q].kb == kb ==> w.deriving[a.q].blocked == Blocked(w, kb) || kb in w.due
  }

  /** A step keeps the cache right for a KB exactly when it is timely for it. */
  lemma StepKeepsExactly(w: World, a: Action, kb: Id)
    requires Right(w, kb) && Enabled(w, a)
    ensures Right(Exec(w, a), kb) <==> Timely(w, a, kb)
  {
    match a
    case ReadList(_, _) =>
    case Insert(_) =>
    case Change(k, _) =>
      assert k == kb ==> kb in Exec(w, a).due;
    case Invalidate(k) =>
  }

  /** The cache is right for the KB in every state of the schedule. */
  predicate AlwaysRight(w: World, actions: seq<Action>, kb: Id)
    requires Legal(w, actions)
    decreases |actions|
  {
    Right(w, kb) && (actions != [] ==> AlwaysRight(Exec(w, actions[0]), actions[1..], kb))
  }

  predicate AlwaysTimely(w: World, actions: seq<Action>, kb: Id)
    requires Legal(w, actions)
    decreases |actions|
  {
    actions != [] ==> Timely(w, actions[0], kb) && AlwaysTimely(Exec(w, actions[0]), actions[1..], kb)
  }

  lemma {:induction false} RightExactlyFrom(w: World, actions: seq<Action>, kb: Id)
    requires Right(w, kb) && Legal(w, actions)
    ensures AlwaysRight(w, actions, kb) <==> AlwaysTimely(w, actions, kb)
    decreases |actions|
  {
    hide Exec, Right, Timely, Enabled;
    if actions != [] {
      var next := Exec(w, actions[0]);
      StepKeepsExactly(w, actions[0], kb);
      if Right(next, kb) {
        RightExactlyFrom(next, actions[1..], kb);
      } else {
        NotRight(next, actions[1..], kb);
      }
    }
  }

  lemma NotRight(w: World, actions: seq<Action>, kb: Id)
    requires !Right(w, kb) && Legal(w, actions)
    ensures !AlwaysRight(w, actions, kb)
  {
  }

  /** In every schedule the cache is always right for a KB if and only if every insertion for it is timely. */
  lemma RightExactly(actions: seq<Action>, kb: Id)
    requires Legal(INITIAL, actions)
    ensures AlwaysRight(INITIAL, actions, kb) <==> AlwaysTimely(INITIAL, actions, kb)
  {
    RightExactlyFrom(INITIAL, actions, kb);
  }

  lemma {:induction false} RightAtTheEnd(w: World, actions: seq<Action>, kb: Id)
    requires Legal(w, actions) && AlwaysRight(w, actions, kb)
    ensures Right(Run(w, actions), kb)
    decreases |actions|
  {
    if actions != [] {
      RightAtTheEnd(Exec(w, actions[0]), actions[1..], kb);
    }
  }

  /** With timely insertions, once no drop is outstanding every cached result reflects the current blocklist. */
  lemma TimelyRunsAreCurrent(actions: seq<Action>, kb: Id)
    requires Legal(INITIAL, actions) && AlwaysTimely(INITIAL, actions, kb) && kb !in Run(INITIAL, actions).due
    ensures var w := Run(INITIAL, actions);
            kb in w.entries ==> w.entries[kb] == Blocked(w, kb)
  {
    hide Run, Legal;
    RightExactly(actions, kb);
    RightAtTheEnd(INITIAL, actions, kb);
  }

  /**
   A block that lands between the read of the list and the insertion is overtaken: the entry
   derived without it outlives the drop, and nothing is left to remove it.
   */
  lemma OvertakenBlock(kb: Id, p: Id)
    ensures var actions := [ReadList(0, kb), Change(kb, {p}), Invalidate(kb), Insert(0)];
            && Legal(INITIAL, actions)
            && var w := Run(INITIAL, actions);
               w.due == multiset{} && w.deriving == map[] && kb in w.entries && p !in w.entries[kb] && p in Blocked(w, kb)
  {
    var w1 := Exec(INITIAL, ReadList(0, kb));
    var w2 := Exec(w1, Change(kb, {p}));
    var w3 := Exec(w2, Invalidate(kb));
    var w4 := Exec(w3, Insert(0));
    assert w3.due == multiset{} && w4.deriving == map[];
    assert Legal(w4, []) && Run(w4, []) == w4;
    assert [Insert(0)][1..] == [];
    assert Legal(w3, [Insert(0)]) && Run(w3, [Insert(0)]) == w4;
    assert [Invalidate(kb), Insert(0)][1..] == [Insert(0)];
    assert Legal(w2, [Invalidate(kb), Insert(0)]) && Run(w2, [Invalidate(kb), Insert(0)]) == w4;
    assert [Change(kb, {p}), Invalidate(kb), Insert(0)][1..] == [Invalidate(kb), Insert(0)];
    assert Legal(w1, [Change(kb, {p}), Invalidate(kb), Insert(0)]);
    assert Run(w1, [Change(kb, {p}), Invalidate(kb), Insert(0)]) == w4;
    assert [ReadList(0, kb), Change(kb, {p}), Invalidate(kb), Insert(0)][1..] == [Change(kb, {p}), Invalidate(kb), Insert(0)];
  }
}
