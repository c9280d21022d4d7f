/**
 The connection limiter: a shared counter that is loaded, compared and incremented in
 separate steps, and decremented when a guard is dropped.
 */
module ConnLimits {
  import opened Basics

  /** The limiter used by one acceptor at a time. */
  class ConnLimiter {
    const max: nat
    var active: nat

    constructor (max: nat)
      ensures this.max == max && active == 0
    {
      this.max := max;
      active := 0;
    }

    /** Admit one more connection unless the cap is reached; a cap of 0 admits everyone. */
    method TryAcquire() returns (admitted: bool)
      modifies this
      ensures admitted <==> max == 0 || old(active) < max
      ensures active == old(active) + if admitted then 1 else 0
      ensures max > 0 && old(active) <= max ==> active <= max
    {
      if max > 0 && active >= max {
        return false;
      }
      active := active + 1;
      admitted := true;
    }

    /** A guard is dropped. */
    method Release()
      requires active > 0
      modifies this
      ensures active == old(active) - 1
    {
      active := active - 1;
    }
  }

  // ---- Many tasks at once ----

  /**
   The counter, the attempts that have passed the check and not yet incremented, and the
   attempts that hold a guard.
   */
  datatype World = World(count: int, checked: set<nat>, holding: set<nat>)

  datatype Action = Load(t: nat) | Add(t: nat) | Drop(t: nat)

  const INITIAL := World(0, {}, {})

  predicate Enabled(w: World, a: Action) {
    match a
    case Load(t) => t !in w.checked && t !in w.holding
    case Add(t) => t in w.checked
    case Drop(t) => t in w.holding
  }

  /** A load that finds the cap reached turns the attempt away. */
  function Exec(max: nat, w: World, a: Action): World
    requires Enabled(w, a)
  {
    match a
    case Load(t) => if max > 0 && w.count >= max then w else w.(checked := w.checked + {t})
    case Add(t) => World(w.count + 1, w.checked - {t}, w.holding + {t})
    case Drop(t) => w.(count := w.count - 1, holding := w.holding - {t})
  }

  predicate Legal(max: nat, w: World, actions: seq<Action>)
    decreases |actions|
  {
    actions == [] || (Enabled(w, actions[0]) && Legal(max, Exec(max, w, actions[0]), actions[1..]))
  }

  function Run(max: nat, w: World, actions: seq<Action>): World
    requires Legal(max, w, actions)
    decreases |actions|
  {
    if actions == [] then w else Run(max, Exec(max, w, actions[0]), actions[1..])
  }

  /** Never more than `k` attempts are between check and increment. */
  predicate AtMostInside(max: nat, w: World, actions: seq<Action>, k: nat)
    requires Legal(max, w, actions)
    decreases |actions|
  {
    |w.checked| <= k && (actions == [] || AtMostInside(max, Exec(max, w, actions[0]), actions[1..], k))
  }

  predicate Counted(w: World) {
    w.count == |w.holding| && w.checked !! w.holding
  }

  /** The counter always equals the number of live guards, so a drop never underflows it. */
  lemma {:induction false} CounterIsExact(max: nat, w: World, actions: seq<Action>)
    requires Counted(w) && Legal(max, w, actions)
    ensures Counted(Run(max, w, actions))
    decreases |actions|
  {
    if actions != [] {
      CounterIsExact(max, Exec(max, w, actions[0]), actions[1..]);
    }
  }

  /** With at most `k` attempts inside at once, the counter never exceeds `max + k - 1`. */
  lemma {:induction false} CounterIsBounded(max: nat, w: World, actions: seq<Action>, k: nat)
    requires max > 0 && k > 0 && Counted(w) && w.count + |w.checked| <= max + k - 1
    requires Legal(max, w, actions) && AtMostInside(max, w, actions, k)
    ensures Run(max, w, actions).count + |Run(max, w, actions).checked| <= max + k - 1
    decreases |actions|
  {
    if actions != [] {
      CounterIsBounded(max, Exec(max, w, actions[0]), actions[1..], k);
    }
  }

  /** From the start: the bound for `k` concurrent attempts, and `max` itself for one acceptor. */
  lemma ConnectionBound(max: nat, actions: seq<Action>, k: nat)
    requires max > 0 && k > 0 && Legal(max, INITIAL, actions) && AtMostInside(max, INITIAL, actions, k)
    ensures 0 <= Run(max, INITIAL, actions).count <= max + k - 1
    ensures k == 1 ==> Run(max, INITIAL, actions).count <= max
    ensures Run(max, INITIAL, actions).count == |Run(max, INITIAL, actions).holding|
  {
    CounterIsExact(max, INITIAL, actions);
    CounterIsBounded(max, INITIAL, actions, k);
  }

  // ---- The bound is reached ----

  function Below(n: nat): (s: set<nat>)
    ensures |s| == n && forall i: nat :: i in s <==> i < n
  {
    if n == 0 then {} else Below(n - 1) + {n - 1}
  }

  /** The attempts from `a` up to `b`. */
  function Between(a: nat, b: nat): (s: set<nat>)
    requires a <= b
    ensures |s| == b - a && forall i: nat :: i in s <==> a <= i < b
    decreases b - a
  {
    if a == b then {} else {a} + Between(a + 1, b)
  }

  lemma {:induction false} Extend(max: nat, w: World, actions: seq<Action>, a: Action, k: nat)
    requires Legal(max, w, actions) && AtMostInside(max, w, actions, k) && Enabled(Run(max, w, actions), a)
    requires |Exec(max, Run(max, w, actions), a).checked| <= k
    ensures Legal(max, w, actions + [a]) && AtMostInside(max, w, actions + [a], k)
    ensures Run(max, w, actions + [a]) == Exec(max, Run(max, w, actions), a)
    decreases |actions|
  {
    if actions == [] {
      assert [a][1..] == [] && actions + [a] == [a];
      assert Legal(max, Exec(max, w, a), []);
    } else {
      Extend(max, Exec(max, w, actions[0]), actions[1..], a, k);
      assert (actions + [a])[1..] == actions[1..] + [a];
    }
  }

  /** The schedule `actions` leads to `w` with at most `k` attempts inside. */
  predicate Reaches(max: nat, actions: seq<Action>, k: nat, w: World) {
    Legal(max, INITIAL, actions) && AtMostInside(max, INITIAL, actions, k) && Run(max, INITIAL, actions) == w
  }

  lemma Push(max: nat, actions: seq<Action>, k: nat, w: World, a: Action) returns (longer: seq<Action>)
    requires Reaches(max, actions, k, w) && Enabled(w, a) && |Exec(max, w, a).checked| <= k
    ensures Reaches(max, longer, k, Exec(max, w, a))
  {
    Extend(max, INITIAL, actions, a, k);
    longer := actions + [a];
  }

  /** One attempt after another up to one below the cap. */
  lemma FillUp(max: nat, k: nat) returns (actions: seq<Action>)
    requires max > 0 && k > 0
    ensures Reaches(max, actions, k, World(max - 1, {}, Below(max - 1)))
  {
    actions := [];
    for i := 0 to max - 1
      invariant Reaches(max, actions, k, World(i, {}, Below(i)))
    {
      hide Reaches;
      actions := Push(max, actions, k, World(i, {}, Below(i)), Load(i));
      assert {} + {i} - {i} == {};
      actions := Push(max, actions, k, World(i, {i}, Below(i)), Add(i));
    }
  }

  lemma BetweenGrows(a: nat, b: nat)
    requires a <= b
    ensures Between(a, b) + {b} == Between(a, b + 1)
  {
    hide Between;
  }

  /** Then `k` attempts all pass the check before any increments. */
  lemma {:induction false} CrowdIn(max: nat, k: nat, j: nat) returns (actions: seq<Action>)
    requires max > 0 && k > 0 && j <= k
    ensures Reaches(max, actions, k, World(max - 1, Between(max - 1, max - 1 + j), Below(max - 1)))
  {
    hide *;
    var base := max - 1;
    if j == 0 {
      actions := FillUp(max, k);
      BetweenNone(base);
    } else {
      var t := base + (j - 1);
      var w := World(base, Between(base, t), Below(base));
      actions := CrowdIn(max, k, j - 1);
      LoadOne(max, base, t);
      actions := Push(max, actions, k, w, Load(t));
    }
  }

  lemma BetweenNone(a: nat)
    ensures Between(a, a) == {}
  {
  }

  lemma LoadOne(max: nat, base: nat, t: nat)
    requires max == base + 1 && base <= t
    ensures var w := World(base, Between(base, t), Below(base));
            && Enabled(w, Load(t))
            && Exec(max, w, Load(t)) == World(base, Between(base, t + 1), Below(base))
  {
    BetweenGrows(base, t);
  }

  lemma AddOne(max: nat, t: nat, top: nat)
    requires t < top
    ensures var w := World(t, Between(t, top), Below(t));
            && Enabled(w, Add(t))
            && Exec(max, w, Add(t)) == World(t + 1, Between(t + 1, top), Below(t + 1))
  {
    assert Between(t, top) - {t} == Between(t + 1, top);
  }

  /** Then they increment one by one. */
  lemma {:induction false} PileUp(max: nat, k: nat, j: nat) returns (actions: seq<Action>)
    requires max > 0 && k > 0 && j <= k
    ensures Reaches(max, actions, k, World(max - 1 + j, Between(max - 1 + j, max - 1 + k), Below(max - 1 + j)))
  {
    hide *;
    if j == 0 {
      actions := CrowdIn(max, k, k);
    } else {
      var t, top := max - 2 + j, max - 1 + k;
      actions := PileUp(max, k, j - 1);
      AddOne(max, t, top);
      actions := Push(max, actions, k, World(t, Between(t, top), Below(t)), Add(t));
    }
  }

  /**
   The bound is tight: for every cap and every `k`, some schedule with at most `k`
   attempts inside leaves exactly `max + k - 1` connections live.
   */
  lemma BoundIsTight(max: nat, k: nat) returns (actions: seq<Action>)
    requires max > 0 && k > 0
    ensures Legal(max, INITIAL, actions) && AtMostInside(max, INITIAL, actions, k)
    ensures Run(max, INITIAL, actions).count == max + k - 1
  {
    hide Legal, AtMostInside, Run, Between, Below;
    actions := PileUp(max, k, k);
  }
}
