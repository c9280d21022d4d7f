/**
 The projector as a concurrent system. Any number of mutators write documents and then
 announce them; one consumer takes announcements off the queue and, in separate steps,
 reads documents, deletes rows, writes rows and finally updates its routing index. Steps
 interleave in any order.

 Row writes succeed, durable documents are not deleted, and the stores start empty. A row
 is written under the id its document carries, whatever id the document is addressed by.
 */
module ProjectorSteps {
  import opened Basics
  import opened DocNames
  import opened Projection

  datatype Phase =
    | Waiting
    | NodeRead(kb: Id, n: Id)
    | NodeWrite(kb: Id, n: Id, row: Node)
    | CollectionRead(kb: Id)
    | Deleting(kb: Id, current: set<Id>, prev: set<Id>, todo: set<Id>)
    | Adding(kb: Id, current: set<Id>, prev: set<Id>, todo: set<Id>)
    | AddWrite(kb: Id, current: set<Id>, prev: set<Id>, todo: set<Id>, n: Id, row: Node)

  /** `unsent` holds documents written by mutators that have not announced them yet. */
  datatype World = World(
    docs: Docs,
    unsent: multiset<DocName>,
    queue: seq<DocName>,
    phase: Phase,
    manifests: map<Id, set<Id>>,
    stores: map<Id, Rows>)

  datatype Action =
    | Mutate(d: DocName, doc: Doc)
    | Announce(d: DocName)
    | Receive
    | ReadNode
    | WriteNode
    | ReadCollection
    | DeleteRow(n: Id)
    | StartAdding
    | ReadAdded(n: Id)
    | WriteAdded
    | Commit

  const INITIAL := World(map[], multiset{}, [], Waiting, map[], map[])

  function Listed(w: World, kb: Id): set<Id> {
    if kb in w.manifests then w.manifests[kb] else {}
  }

  function RowsOf(w: World, kb: Id): Rows {
    if kb in w.stores then w.stores[kb] else map[]
  }

  predicate IsMutation(a: Action) {
    a.Mutate? || a.Announce?
  }

  predicate Enabled(dec: Decoders, w: World, a: Action) {
    match a
    case Mutate(d, _) => Durable(d)
    case Announce(d) => d in w.unsent
    case Receive => w.phase.Waiting? && w.queue != []
    case ReadNode => w.phase.NodeRead?
    case WriteNode => w.phase.NodeWrite?
    case ReadCollection => w.phase.CollectionRead?
    case DeleteRow(n) => w.phase.Deleting? && n in w.phase.todo
    case StartAdding => w.phase.Deleting? && w.phase.todo == {}
    case ReadAdded(n) => w.phase.Adding? && n in w.phase.todo
    case WriteAdded => w.phase.AddWrite?
    case Commit => w.phase.Adding? && w.phase.todo == {}
  }

  function Exec(dec: Decoders, w: World, a: Action): World
    requires Enabled(dec, w, a)
  {
    match a
    case Mutate(d, doc) => w.(docs := w.docs[d := doc], unsent := w.unsent + multiset{d})
    case Announce(d) => w.(unsent := w.unsent - multiset{d}, queue := w.queue + [d])
    case Receive =>
      w.(queue := w.queue[1..],
      phase := match w.queue[0]
               case KbNode(kb, n) => if n in Listed(w, kb) then NodeRead(kb, n) else Waiting
               case KbCollection(kb) => CollectionRead(kb)
               case _ => Waiting)
    case ReadNode =>
      var row := DerivedRow(dec, w.docs, w.phase.kb, w.phase.n);
      w.(phase := if row.Some? then NodeWrite(w.phase.kb, w.phase.n, row.value) else Waiting)
    case WriteNode =>
      w.(stores := w.stores[w.phase.kb := RowsOf(w, w.phase.kb)[w.phase.row.id := w.phase.row]], phase := Waiting)
    case ReadCollection =>
      var current, prev := Manifest(dec, w.docs, w.phase.kb), Listed(w, w.phase.kb);
      w.(phase := if KbCollection(w.phase.kb) in w.docs then Deleting(w.phase.kb, current, prev, prev - current) else Waiting)
    case DeleteRow(n) =>
      var p := w.phase;
      w.(stores := w.stores[p.kb := RowsOf(w, p.kb) - {n}], phase := Deleting(p.kb, p.current, p.prev, p.todo - {n}))
    case StartAdding =>
      w.(phase := Adding(w.phase.kb, w.phase.current, w.phase.prev, w.phase.current - w.phase.prev))
    case ReadAdded(n) =>
      var p := w.phase;
      var row := DerivedRow(dec, w.docs, p.kb, n);
      w.(phase := if row.Some? then AddWrite(p.kb, p.current, p.prev, p.todo - {n}, n, row.value)
                  else Adding(p.kb, p.current, p.prev, p.todo - {n}))
    case WriteAdded =>
      var p := w.phase;
      w.(stores := w.stores[p.kb := RowsOf(w, p.kb)[p.row.id := p.row]], phase := Adding(p.kb, p.current, p.prev, p.todo))
    case Commit =>
      w.(manifests := w.manifests[w.phase.kb := w.phase.current], phase := Waiting)
  }

  predicate Legal(dec: Decoders, w: World, actions: seq<Action>)
    decreases |actions|
  {
    actions == [] || (Enabled(dec, w, actions[0]) && Legal(dec, Exec(dec, w, actions[0]), actions[1..]))
  }

  /** The world after the schedule `actions` from `w`. */
  function Run(dec: Decoders, w: World, actions: seq<Action>): World
    requires Legal(dec, w, actions)
    decreases |actions|
  {
    if actions == [] then w else Run(dec, Exec(dec, w, actions[0]), actions[1..])
  }

  predicate Quiescent(w: World) {
    w.unsent == multiset{} && w.queue == [] && w.phase.Waiting?
  }

  // ---- What every schedule keeps ----

  /** An announcement of `d` is still to reach the consumer. */
  predicate Due(w: World, d: DocName) {
    d in w.queue || d in w.unsent
  }

  predicate Diffing(p: Phase) {
    p.Deleting? || p.Adding? || p.AddWrite?
  }

  /** The manifest in use is the collection's, unless an announcement is due or being handled. */
  ghost predicate ManifestInv(dec: Decoders, w: World, kb: Id) {
    && (kb in w.manifests ==> KbCollection(kb) in w.docs)
    && (Due(w, KbCollection(kb))
        || w.phase == CollectionRead(kb)
        || (if Diffing(w.phase) && w.phase.kb == kb then Manifest(dec, w.docs, kb) == w.phase.current
            else Manifest(dec, w.docs, kb) == Listed(w, kb)))
  }

  /** What the consumer carries in its locals while it works on `kb`. */
  ghost predicate PhaseInv(w: World, kb: Id) {
    match w.phase
    case NodeRead(k, n) => k == kb ==> n in Listed(w, kb) && KbNode(kb, n) in w.docs
    case NodeWrite(k, n, _) => k == kb ==> n in Listed(w, kb)
    case Deleting(k, current, prev, todo) =>
      k == kb ==> prev == Listed(w, kb) && todo <= prev - current && KbCollection(kb) in w.docs
    case Adding(k, current, prev, todo) =>
      k == kb ==> prev == Listed(w, kb) && todo <= current - prev && KbCollection(kb) in w.docs
    case AddWrite(k, current, prev, todo, n, _) =>
      k == kb ==>
        && prev == Listed(w, kb) && todo <= current - prev && KbCollection(kb) in w.docs
        && n in current - prev && n !in todo
    case _ => true
  }

  ghost predicate Inv(dec: Decoders, w: World, kb: Id) {
    && (forall d :: Due(w, d) ==> d in w.docs)
    && OwnKeyed(RowsOf(w, kb))
    && PhaseInv(w, kb)
    && ManifestInv(dec, w, kb)
  }

  lemma DueStep(dec: Decoders, w: World, a: Action)
    requires Enabled(dec, w, a)
    ensures var w' := Exec(dec, w, a);
            forall d :: Due(w', d) ==> Due(w, d) || (a.Mutate? && d == a.d)
    ensures var w' := Exec(dec, w, a);
            forall d :: Due(w, d) ==> Due(w', d) || (a.Receive? && d == w.queue[0])
    ensures a.Mutate? ==> Due(Exec(dec, w, a), a.d)
    ensures a.Receive? ==> Due(w, w.queue[0])
  {
    hide DerivedRow, Manifest, Listed, RowsOf;
    if a.Receive? {
      assert w.queue == [w.queue[0]] + w.queue[1..];
    }
  }

  lemma MutatorKeeps(dec: Decoders, w: World, a: Action, kb: Id)
    requires Inv(dec, w, kb) && Enabled(dec, w, a) && IsMutation(a)
    ensures Inv(dec, Exec(dec, w, a), kb)
  {
    hide DerivedRow, Due;
    DueStep(dec, w, a);
  }

  lemma NodeStepKeeps(dec: Decoders, w: World, a: Action, kb: Id)
    requires Inv(dec, w, kb) && Enabled(dec, w, a) && (a.Receive? || a.ReadNode? || a.WriteNode? || a.ReadCollection?)
    ensures Inv(dec, Exec(dec, w, a), kb)
  {
    hide DerivedRow, Due;
    DueStep(dec, w, a);
  }

  lemma DiffStepKeeps(dec: Decoders, w: World, a: Action, kb: Id)
    requires Inv(dec, w, kb) && Enabled(dec, w, a)
    requires a.DeleteRow? || a.StartAdding? || a.ReadAdded? || a.WriteAdded? || a.Commit?
    ensures Inv(dec, Exec(dec, w, a), kb)
  {
    hide DerivedRow, Due;
    DueStep(dec, w, a);
  }

  /** Every step keeps the announcements, the store's keys, the consumer's locals and the manifests right. */
  lemma StepKeeps(dec: Decoders, w: World, a: Action, kb: Id)
    requires Inv(dec, w, kb) && Enabled(dec, w, a)
    ensures Inv(dec, Exec(dec, w, a), kb)
  {
    hide Inv, Exec, Enabled;
    match a
    case Mutate(_, _) => MutatorKeeps(dec, w, a, kb);
    case Announce(_) => MutatorKeeps(dec, w, a, kb);
    case Receive => NodeStepKeeps(dec, w, a, kb);
    case ReadNode => NodeStepKeeps(dec, w, a, kb);
    case WriteNode => NodeStepKeeps(dec, w, a, kb);
    case ReadCollection => NodeStepKeeps(dec, w, a, kb);
    case _ => DiffStepKeeps(dec, w, a, kb);
  }

  lemma {:induction false} RunKeeps(dec: Decoders, w: World, actions: seq<Action>, kb: Id)
    requires Inv(dec, w, kb) && Legal(dec, w, actions)
    ensures Inv(dec, Run(dec, w, actions), kb)
    decreases |actions|
  {
    if actions != [] {
      StepKeeps(dec, w, actions[0], kb);
      RunKeeps(dec, Exec(dec, w, actions[0]), actions[1..], kb);
    }
  }

  // ---- Draining ----

  function PhaseClass(p: Phase): nat {
    match p
    case Waiting => 0
    case NodeWrite(_, _, _) => 1
    case NodeRead(_, _) => 2
    case Adding(_, _, _, _) => 3
    case AddWrite(_, _, _, _, _, _) => 3
    case Deleting(_, _, _, _) => 4
    case CollectionRead(_) => 5
  }

  function PhaseSize(p: Phase): nat {
    match p
    case Adding(_, _, _, todo) => 2 * |todo|
    case AddWrite(_, _, _, todo, _, _) => 2 * |todo| + 1
    case Deleting(_, _, _, todo) => |todo|
    case _ => 0
  }

  predicate AtRest(w: World) {
    w.queue == [] && w.phase.Waiting?
  }

  /** The second world is closer to rest, with the same documents. */
  predicate Closer(w: World, w': World) {
    && w'.docs == w.docs && w'.unsent == w.unsent
    && (|w'.queue| < |w.queue|
        || (w'.queue == w.queue
            && (PhaseClass(w'.phase) < PhaseClass(w.phase)
                || (PhaseClass(w'.phase) == PhaseClass(w.phase) && PhaseSize(w'.phase) < PhaseSize(w.phase)))))
  }

  lemma CollectionStepCloser(dec: Decoders, w: World, a: Action)
    requires Enabled(dec, w, a) && (a.DeleteRow? || a.StartAdding? || a.ReadAdded? || a.WriteAdded? || a.Commit?)
    ensures Closer(w, Exec(dec, w, a))
  {
    hide DerivedRow, Manifest, RowsOf, Listed;
  }

  /** Every step of the consumer brings it closer to rest. */
  lemma StepCloser(dec: Decoders, w: World, a: Action)
    requires Enabled(dec, w, a) && !IsMutation(a)
    ensures Closer(w, Exec(dec, w, a))
  {
    if a.Receive? || a.ReadNode? || a.WriteNode? || a.ReadCollection? {
      hide DerivedRow, Manifest, RowsOf, Listed, PhaseSize;
    } else {
      hide Exec, Closer;
      CollectionStepCloser(dec, w, a);
    }
  }

  /** Unless it is at rest, the consumer has a step to take. */
  lemma NextStep(dec: Decoders, w: World) returns (a: Action)
    requires !AtRest(w)
    ensures Enabled(dec, w, a) && !IsMutation(a)
  {
    match w.phase
    case Waiting => a := Receive;
    case NodeRead(_, _) => a := ReadNode;
    case NodeWrite(_, _, _) => a := WriteNode;
    case CollectionRead(_) => a := ReadCollection;
    case AddWrite(_, _, _, _, _, _) => a := WriteAdded;
    case Deleting(_, _, _, todo) =>
      if todo == {} {
        a := StartAdding;
      } else {
        var n :| n in todo;
        a := DeleteRow(n);
      }
    case Adding(_, _, _, todo) =>
      if todo == {} {
        a := Commit;
      } else {
        var n :| n in todo;
        a := ReadAdded(n);
      }
  }

  /** Left alone, the consumer always empties the queue and comes to rest. */
  lemma {:induction false} ConsumerDrains(dec: Decoders, w: World) returns (actions: seq<Action>)
    ensures forall i :: 0 <= i < |actions| ==> !IsMutation(actions[i])
    ensures Legal(dec, w, actions) && AtRest(Run(dec, w, actions))
    ensures Run(dec, w, actions).docs == w.docs && Run(dec, w, actions).unsent == w.unsent
    decreases |w.queue|, PhaseClass(w.phase), PhaseSize(w.phase)
  {
    hide Exec, PhaseClass, PhaseSize, Enabled;
    if AtRest(w) {
      actions := [];
    } else {
      var a := NextStep(dec, w);
      StepCloser(dec, w, a);
      var rest := ConsumerDrains(dec, Exec(dec, w, a));
      actions := [a] + rest;
      assert actions[1..] == rest;
    }
  }
}
