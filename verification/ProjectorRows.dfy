/**
 Which rows the concurrent projector gets right. The question is settled row by row: row
 `n` of a KB is right after every drained schedule exactly when, among the documents
 written to that KB, those addressed as `n` and no others carry the id `n`.
 */
module ProjectorRows {
  import opened Basics
  import opened DocNames
  import opened Projection
  import opened ProjectorSteps

  /** A write to a node document of `kb` carries the id `n` exactly when it is addressed as `n`. */
  predicate Honest(dec: Decoders, a: Action, kb: Id, n: Id) {
    a.Mutate? && a.d.KbNode? && a.d.kb == kb ==> (dec.node(a.d.node, a.doc).id == n <==> a.d.node == n)
  }

  predicate AllHonest(dec: Decoders, actions: seq<Action>, kb: Id, n: Id) {
    forall i :: 0 <= i < |actions| ==> Honest(dec, actions[i], kb, n)
  }

  // ---- The invariant of one row ----

  /** The nodes of `kb` whose rows are right unless an announcement is due. */
  function Settled(w: World, kb: Id): set<Id> {
    match w.phase
    case Deleting(k, current, prev, _) => if k == kb then prev * current else Listed(w, kb)
    case Adding(k, current, _, todo) => if k == kb then current - todo else Listed(w, kb)
    case AddWrite(k, current, _, todo, n, _) => if k == kb then current - todo - {n} else Listed(w, kb)
    case NodeRead(k, n) => if k == kb then Listed(w, kb) - {n} else Listed(w, kb)
    case NodeWrite(k, n, _) => if k == kb then Listed(w, kb) - {n} else Listed(w, kb)
    case _ => Listed(w, kb)
  }

  /** Other nodes that may have a row: about to be deleted, or being rewritten. */
  function Unsettled(w: World, kb: Id): set<Id> {
    match w.phase
    case Deleting(k, _, _, todo) => if k == kb then todo else {}
    case NodeRead(k, n) => if k == kb then {n} else {}
    case NodeWrite(k, n, _) => if k == kb then {n} else {}
    case _ => {}
  }

  /** Among the documents of `kb`, those addressed as `n` and no others carry the id `n`. */
  ghost predicate SoleClaim(dec: Decoders, docs: Docs, kb: Id, n: Id) {
    forall m :: KbNode(kb, m) in docs ==> (dec.node(m, docs[KbNode(kb, m)]).id == n <==> m == n)
  }

  /** A row on its way to `kb` is headed for `n` exactly when it was derived for `n`, and is then up to date. */
  ghost predicate Carried(dec: Decoders, w: World, kb: Id, n: Id) {
    (w.phase.NodeWrite? || w.phase.AddWrite?) && w.phase.kb == kb ==>
      && (w.phase.row.id == n <==> w.phase.n == n)
      && (w.phase.n == n ==> Due(w, KbNode(kb, n)) || DerivedRow(dec, w.docs, kb, n) == Some(w.phase.row))
  }

  ghost predicate RowInv(dec: Decoders, w: World, kb: Id, n: Id) {
    && SoleClaim(dec, w.docs, kb, n)
    && Carried(dec, w, kb, n)
    && (n in RowsOf(w, kb) ==> n in Settled(w, kb) + Unsettled(w, kb))
    && (n in Settled(w, kb) ==> Due(w, KbNode(kb, n)) || RowAt(RowsOf(w, kb), n) == DerivedRow(dec, w.docs, kb, n))
  }

  lemma MutateKeepsRow(dec: Decoders, w: World, a: Action, kb: Id, n: Id)
    requires RowInv(dec, w, kb, n) && Enabled(dec, w, a) && IsMutation(a) && Honest(dec, a, kb, n)
    ensures RowInv(dec, Exec(dec, w, a), kb, n)
  {
    hide Due, Manifest;
    DueStep(dec, w, a);
  }

  lemma NodeStepKeepsRow(dec: Decoders, w: World, a: Action, kb: Id, n: Id)
    requires Inv(dec, w, kb) && RowInv(dec, w, kb, n) && Enabled(dec, w, a)
    requires a.Receive? || a.ReadNode? || a.WriteNode? || a.ReadCollection?
    ensures RowInv(dec, Exec(dec, w, a), kb, n)
  {
    hide Due, Manifest, OwnKeyed, ManifestInv;
    DueStep(dec, w, a);
  }

  lemma DiffStepKeepsRow(dec: Decoders, w: World, a: Action, kb: Id, n: Id)
    requires Inv(dec, w, kb) && RowInv(dec, w, kb, n) && Enabled(dec, w, a)
    requires a.DeleteRow? || a.StartAdding? || a.ReadAdded? || a.WriteAdded? || a.Commit?
    ensures RowInv(dec, Exec(dec, w, a), kb, n)
  {
    hide Due, Manifest, OwnKeyed, ManifestInv;
    DueStep(dec, w, a);
  }

  /** Every step of mutators and consumer keeps row `n` right, as long as the writes are honest about `n`. */
  lemma StepKeepsRow(dec: Decoders, w: World, a: Action, kb: Id, n: Id)
    requires Inv(dec, w, kb) && RowInv(dec, w, kb, n) && Enabled(dec, w, a) && Honest(dec, a, kb, n)
    ensures RowInv(dec, Exec(dec, w, a), kb, n)
  {
    hide Inv, RowInv, Exec, Enabled, Honest;
    match a
    case Mutate(_, _) => MutateKeepsRow(dec, w, a, kb, n);
    case Announce(_) => MutateKeepsRow(dec, w, a, kb, n);
    case Receive => NodeStepKeepsRow(dec, w, a, kb, n);
    case ReadNode => NodeStepKeepsRow(dec, w, a, kb, n);
    case WriteNode => NodeStepKeepsRow(dec, w, a, kb, n);
    case ReadCollection => NodeStepKeepsRow(dec, w, a, kb, n);
    case _ => DiffStepKeepsRow(dec, w, a, kb, n);
  }

  lemma {:induction false} RunKeepsRow(dec: Decoders, w: World, actions: seq<Action>, kb: Id, n: Id)
    requires Inv(dec, w, kb) && RowInv(dec, w, kb, n) && Legal(dec, w, actions) && AllHonest(dec, actions, kb, n)
    ensures RowInv(dec, Run(dec, w, actions), kb, n)
    decreases |actions|
  {
    hide Inv, RowInv, Exec, Honest;
    if actions != [] {
      StepKeeps(dec, w, actions[0], kb);
      StepKeepsRow(dec, w, actions[0], kb, n);
      assert forall i :: 0 <= i < |actions[1..]| ==> actions[1..][i] == actions[i + 1];
      RunKeepsRow(dec, Exec(dec, w, actions[0]), actions[1..], kb, n);
    }
  }

  /**
   Convergence of one row. In every state of every schedule where nothing is queued or in
   flight, row `n` is what the current manifest and documents derive, if the writes to
   this KB were honest about `n`. Other KBs and other rows may be in any state.
   */
  lemma RowConverges(dec: Decoders, actions: seq<Action>, kb: Id, n: Id)
    requires Legal(dec, INITIAL, actions) && AllHonest(dec, actions, kb, n)
    requires Quiescent(Run(dec, INITIAL, actions))
    ensures var w := Run(dec, INITIAL, actions);
            RowAt(RowsOf(w, kb), n) == RowAt(Truth(dec, w.docs, kb), n)
  {
    hide Run, Legal;
    RunKeeps(dec, INITIAL, actions, kb);
    RunKeepsRow(dec, INITIAL, actions, kb, n);
  }

  // ---- Whole KBs ----

  /** A write to a node document of `kb` carries the id it is addressed by. */
  predicate SelfNaming(dec: Decoders, a: Action, kb: Id) {
    a.Mutate? && a.d.KbNode? && a.d.kb == kb ==> dec.node(a.d.node, a.doc).id == a.d.node
  }

  predicate AllSelfNaming(dec: Decoders, actions: seq<Action>, kb: Id) {
    forall i :: 0 <= i < |actions| ==> SelfNaming(dec, actions[i], kb)
  }

  /**
   Convergence. Whenever nothing is queued or in flight, a KB whose documents carry their
   own ids has exactly the rows its current manifest and documents derive, whatever was
   written to other KBs.
   */
  lemma Converges(dec: Decoders, actions: seq<Action>, kb: Id)
    requires Legal(dec, INITIAL, actions) && AllSelfNaming(dec, actions, kb)
    requires Quiescent(Run(dec, INITIAL, actions))
    ensures var w := Run(dec, INITIAL, actions);
            RowsOf(w, kb) == Truth(dec, w.docs, kb)
  {
    hide Run, Legal, Truth, RowsOf;
    var w := Run(dec, INITIAL, actions);
    forall n ensures RowAt(RowsOf(w, kb), n) == RowAt(Truth(dec, w.docs, kb), n) {
      RowConverges(dec, actions, kb, n);
    }
    SameRows(RowsOf(w, kb), Truth(dec, w.docs, kb));
  }

  lemma SameRows(a: Rows, b: Rows)
    requires forall n :: RowAt(a, n) == RowAt(b, n)
    ensures a == b
  {
    forall n ensures n in a <==> n in b {
      assert RowAt(a, n) == RowAt(b, n);
    }
    forall n | n in a ensures a[n] == b[n] {
      assert RowAt(a, n) == RowAt(b, n);
    }
  }

  // ---- The hypothesis is exact ----

  ghost predicate Leads(dec: Decoders, w: World, actions: seq<Action>, w': World) {
    Legal(dec, w, actions) && Run(dec, w, actions) == w'
  }

  lemma Stop(dec: Decoders, w: World)
    ensures Leads(dec, w, [], w)
  {
  }

  lemma Step(dec: Decoders, w: World, a: Action, rest: seq<Action>, w': World)
    requires Enabled(dec, w, a) && Leads(dec, Exec(dec, w, a), rest, w')
    ensures Leads(dec, w, [a] + rest, w')
  {
    hide Exec, Enabled;
    assert ([a] + rest)[1..] == rest;
  }

  /** Write a document and let the announcement through. */
  lemma Deliver(dec: Decoders, w: World, d: DocName, doc: Doc, rest: seq<Action>, w': World)
    requires Quiescent(w) && Durable(d)
    requires var sent := w.(docs := w.docs[d := doc], queue := [d]);
             Enabled(dec, sent, Receive) && Leads(dec, Exec(dec, sent, Receive), rest, w')
    ensures Leads(dec, w, [Mutate(d, doc), Announce(d), Receive] + rest, w')
  {
    var written := Exec(dec, w, Mutate(d, doc));
    var sent := Exec(dec, written, Announce(d));
    assert sent == w.(docs := w.docs[d := doc], queue := [d]) by {
      assert written.unsent - multiset{d} == w.unsent && w.queue + [d] == [d];
    }
    Step(dec, sent, Receive, rest, w');
    Step(dec, written, Announce(d), [Receive] + rest, w');
    Step(dec, w, Mutate(d, doc), [Announce(d)] + ([Receive] + rest), w');
    assert [Mutate(d, doc)] + ([Announce(d)] + ([Receive] + rest)) == [Mutate(d, doc), Announce(d), Receive] + rest;
  }

  /** The consumer takes up a collection that lists one new node with a document. */
  lemma AddOne(dec: Decoders, w: World, kb: Id, m: Id)
    requires w.phase == CollectionRead(kb) && KbCollection(kb) in w.docs && KbNode(kb, m) in w.docs
    requires Manifest(dec, w.docs, kb) == {m} && Listed(w, kb) == {}
    ensures var row := DerivedRow(dec, w.docs, kb, m).value;
            Leads(dec, w, [ReadCollection, StartAdding, ReadAdded(m), WriteAdded, Commit],
                  w.(phase := Waiting, manifests := w.manifests[kb := {m}],
                  stores := w.stores[kb := RowsOf(w, kb)[row.id := row]]))
  {
    var row := DerivedRow(dec, w.docs, kb, m).value;
    var w1 := Exec(dec, w, ReadCollection);
    assert w1.phase == Deleting(kb, {m}, {}, {});
    var w2 := Exec(dec, w1, StartAdding);
    assert w2.phase == Adding(kb, {m}, {}, {m});
    var w3 := Exec(dec, w2, ReadAdded(m));
    assert w3.phase == AddWrite(kb, {m}, {}, {}, m, row);
    var w4 := Exec(dec, w3, WriteAdded);
    var w5 := Exec(dec, w4, Commit);
    Stop(dec, w5);
    Step(dec, w4, Commit, [], w5);
    Step(dec, w3, WriteAdded, [Commit] + [], w5);
    Step(dec, w2, ReadAdded(m), [WriteAdded] + ([Commit] + []), w5);
    Step(dec, w1, StartAdding, [ReadAdded(m)] + ([WriteAdded] + ([Commit] + [])), w5);
    Step(dec, w, ReadCollection, [StartAdding] + ([ReadAdded(m)] + ([WriteAdded] + ([Commit] + []))), w5);
    assert [ReadCollection] + ([StartAdding] + ([ReadAdded(m)] + ([WriteAdded] + ([Commit] + []))))
        == [ReadCollection, StartAdding, ReadAdded(m), WriteAdded, Commit];
  }

  /** One node document and a collection that lists it, written and drained. */
  lemma PublishOne(dec: Decoders, kb: Id, m: Id, doc: Doc, c: Doc) returns (actions: seq<Action>)
    requires dec.manifest(c) == {m}
    ensures forall i :: 0 <= i < |actions| && actions[i].Mutate? ==>
              actions[i] == Mutate(KbNode(kb, m), doc) || actions[i] == Mutate(KbCollection(kb), c)
    ensures Legal(dec, INITIAL, actions)
    ensures var w := Run(dec, INITIAL, actions);
            && Quiescent(w)
            && w.docs == map[KbNode(kb, m) := doc, KbCollection(kb) := c]
            && RowsOf(w, kb) == map[dec.node(m, doc).id := dec.node(m, doc)]
  {
    var node, coll := KbNode(kb, m), KbCollection(kb);
    var w1 := INITIAL.(docs := map[node := doc]);
    var w2 := w1.(docs := map[node := doc, coll := c], phase := CollectionRead(kb));
    AddOne(dec, w2, kb, m);
    var adding := [ReadCollection, StartAdding, ReadAdded(m), WriteAdded, Commit];
    var w3 := Run(dec, w2, adding);
    var sent := w1.(docs := w1.docs[coll := c], queue := [coll]);
    assert Exec(dec, sent, Receive) == w2;
    Deliver(dec, w1, coll, c, adding, w3);
    var rest := [Mutate(coll, c), Announce(coll), Receive] + adding;
    var first := INITIAL.(docs := INITIAL.docs[node := doc], queue := [node]);
    assert Exec(dec, first, Receive) == w1;
    Deliver(dec, INITIAL, node, doc, rest, w3);
    actions := [Mutate(node, doc), Announce(node), Receive] + rest;
  }

  /** Only documents in `allowed` are written to the nodes of `kb`; anything goes elsewhere. */
  predicate WritesOnly(actions: seq<Action>, kb: Id, allowed: (Id, Doc) -> bool) {
    forall i :: 0 <= i < |actions| && actions[i].Mutate? && actions[i].d.KbNode? && actions[i].d.kb == kb ==>
      allowed(actions[i].d.node, actions[i].doc)
  }

  /** Each single node can be listed. */
  ghost predicate CanList(dec: Decoders) {
    forall m :: exists c :: dec.manifest(c) == {m}
  }

  /**
   For any class of documents: row `n` is right after every drained schedule that writes
   only such documents to the KB, if and only if in that class the documents addressed as
   `n`, and no others, carry the id `n`.
   */
  lemma RowConvergesExactly(dec: Decoders, kb: Id, n: Id, allowed: (Id, Doc) -> bool)
    requires CanList(dec)
    ensures (forall actions ::
               Legal(dec, INITIAL, actions) && WritesOnly(actions, kb, allowed) && Quiescent(Run(dec, INITIAL, actions)) ==>
                 var w := Run(dec, INITIAL, actions);
                 RowAt(RowsOf(w, kb), n) == RowAt(Truth(dec, w.docs, kb), n))
       <==> (forall m, doc :: allowed(m, doc) ==> (dec.node(m, doc).id == n <==> m == n))
  {
    hide Run, Legal;
    if forall m, doc :: allowed(m, doc) ==> (dec.node(m, doc).id == n <==> m == n) {
      forall actions | Legal(dec, INITIAL, actions) && WritesOnly(actions, kb, allowed) && Quiescent(Run(dec, INITIAL, actions))
        ensures var w := Run(dec, INITIAL, actions);
                RowAt(RowsOf(w, kb), n) == RowAt(Truth(dec, w.docs, kb), n)
      {
        RowConverges(dec, actions, kb, n);
      }
    } else {
      var m, doc :| allowed(m, doc) && !(dec.node(m, doc).id == n <==> m == n);
      var c :| dec.manifest(c) == {m};
      var actions := PublishOne(dec, kb, m, doc, c);
      var w := Run(dec, INITIAL, actions);
      assert Truth(dec, w.docs, kb) == map[m := dec.node(m, doc)];
      assert RowAt(RowsOf(w, kb), n) != RowAt(Truth(dec, w.docs, kb), n);
    }
  }

  /**
   For any class of documents: every drained schedule that writes only such documents to a
   KB leaves exactly its true rows, if and only if every document of the class carries
   the id it is addressed by.
   */
  lemma ConvergesExactly(dec: Decoders, kb: Id, allowed: (Id, Doc) -> bool)
    requires CanList(dec)
    ensures (forall actions ::
               Legal(dec, INITIAL, actions) && WritesOnly(actions, kb, allowed) && Quiescent(Run(dec, INITIAL, actions)) ==>
                 var w := Run(dec, INITIAL, actions);
                 RowsOf(w, kb) == Truth(dec, w.docs, kb))
       <==> (forall m, doc :: allowed(m, doc) ==> dec.node(m, doc).id == m)
  {
    hide Run, Legal;
    if forall m, doc :: allowed(m, doc) ==> dec.node(m, doc).id == m {
      forall actions | Legal(dec, INITIAL, actions) && WritesOnly(actions, kb, allowed) && Quiescent(Run(dec, INITIAL, actions))
        ensures var w := Run(dec, INITIAL, actions);
                RowsOf(w, kb) == Truth(dec, w.docs, kb)
      {
        Converges(dec, actions, kb);
      }
    } else {
      var m, doc :| allowed(m, doc) && dec.node(m, doc).id != m;
      var c :| dec.manifest(c) == {m};
      var actions := PublishOne(dec, kb, m, doc, c);
      var w := Run(dec, INITIAL, actions);
      assert Truth(dec, w.docs, kb) == map[m := dec.node(m, doc)];
      assert m !in RowsOf(w, kb);
    }
  }

  lemma {:induction false} RunConcat(dec: Decoders, w: World, a: seq<Action>, b: seq<Action>)
    requires Legal(dec, w, a) && Legal(dec, Run(dec, w, a), b)
    ensures Legal(dec, w, a + b) && Run(dec, w, a + b) == Run(dec, Run(dec, w, a), b)
    decreases |a|
  {
    hide Exec, Enabled;
    if a == [] {
      assert a + b == b;
    } else {
      RunConcat(dec, Exec(dec, w, a[0]), a[1..], b);
      assert (a + b)[1..] == a[1..] + b;
    }
  }

  /**
   A listed node's document is replaced by one that carries another id, as when a KB is
   sealed for end-to-end encryption and its documents carry none. However the projector
   got to where it was, it comes to rest with the wrong rows: the new row under the other
   id, and the row the node had before still in place.
   */
  lemma ForeignIdStrands(dec: Decoders, before: seq<Action>, kb: Id, n: Id, doc: Doc)
    requires Legal(dec, INITIAL, before) && Quiescent(Run(dec, INITIAL, before))
    requires n in Manifest(dec, Run(dec, INITIAL, before).docs, kb) && dec.node(n, doc).id != n
    ensures var d := KbNode(kb, n);
            var actions := before + ([Mutate(d, doc), Announce(d), Receive] + [ReadNode, WriteNode]);
            && Legal(dec, INITIAL, actions)
            && var w, w' := Run(dec, INITIAL, before), Run(dec, INITIAL, actions);
               && Quiescent(w')
               && RowsOf(w', kb) != Truth(dec, w'.docs, kb)
               && RowAt(RowsOf(w', kb), n) == RowAt(RowsOf(w, kb), n)
               && dec.node(n, doc).id in RowsOf(w', kb)
  {
    hide Legal, Run;
    var w := Run(dec, INITIAL, before);
    RunKeeps(dec, INITIAL, before, kb);
    assert Manifest(dec, w.docs, kb) == Listed(w, kb);
    var d, row := KbNode(kb, n), dec.node(n, doc);
    var sent := w.(docs := w.docs[d := doc], queue := [d]);
    var w1 := Exec(dec, sent, Receive);
    assert w1.phase == NodeRead(kb, n) && w1.queue == [];
    var w2 := Exec(dec, w1, ReadNode);
    var w3 := Exec(dec, w2, WriteNode);
    Stop(dec, w3);
    Step(dec, w2, WriteNode, [], w3);
    Step(dec, w1, ReadNode, [WriteNode] + [], w3);
    assert [ReadNode] + ([WriteNode] + []) == [ReadNode, WriteNode];
    Deliver(dec, w, d, doc, [ReadNode, WriteNode], w3);
    RunConcat(dec, INITIAL, before, [Mutate(d, doc), Announce(d), Receive] + [ReadNode, WriteNode]);
    assert n in Truth(dec, w3.docs, kb) && Truth(dec, w3.docs, kb)[n] == row;
    assert n in RowsOf(w3, kb) ==> RowsOf(w3, kb)[n].id == n;
  }

  // ---- Rebuilding ----

  /**
   Rebuilding into an empty store, in whatever order, gives exactly the rows of any drained
   incremental run that ends in the same documents, when the KB's documents carried
   their own ids.
   */
  lemma RebuildMatchesIncremental(dec: Decoders, actions: seq<Action>, kb: Id, order: seq<Id>)
    requires Legal(dec, INITIAL, actions) && AllSelfNaming(dec, actions, kb)
    requires Quiescent(Run(dec, INITIAL, actions))
    requires IsOrder(order, Manifest(dec, Run(dec, INITIAL, actions).docs, kb))
    ensures var w := Run(dec, INITIAL, actions);
            Overlay(dec, w.docs, kb, map[], order) == RowsOf(w, kb)
  {
    hide Run, Legal, Overlay, Truth, IsOrder;
    var w := Run(dec, INITIAL, actions);
    Converges(dec, actions, kb);
    RunKeeps(dec, INITIAL, actions, kb);
    ExpectedOwnKeyed(dec, w.docs, kb, Manifest(dec, w.docs, kb));
    OverlayIsExact(dec, w.docs, kb, map[], order, Manifest(dec, w.docs, kb));
    TruthIsExpected(dec, w.docs, kb);
  }

  lemma TruthIsExpected(dec: Decoders, docs: Docs, kb: Id)
    ensures Truth(dec, docs, kb) == Expected(dec, docs, kb, Manifest(dec, docs, kb))
  {
  }

  /** The consumer takes up a collection that drops one node and lists another without a document. */
  lemma SwapOne(dec: Decoders, w: World, kb: Id, m: Id, other: Id)
    requires w.phase == CollectionRead(kb) && KbCollection(kb) in w.docs && KbNode(kb, other) !in w.docs && other != m
    requires Manifest(dec, w.docs, kb) == {other} && Listed(w, kb) == {m}
    ensures Leads(dec, w, [ReadCollection, DeleteRow(m), StartAdding, ReadAdded(other), Commit],
                  w.(phase := Waiting, manifests := w.manifests[kb := {other}], stores := w.stores[kb := RowsOf(w, kb) - {m}]))
  {
    var w1 := Exec(dec, w, ReadCollection);
    assert w1.phase == Deleting(kb, {other}, {m}, {m});
    var w2 := Exec(dec, w1, DeleteRow(m));
    assert w2.phase == Deleting(kb, {other}, {m}, {});
    var w3 := Exec(dec, w2, StartAdding);
    assert w3.phase == Adding(kb, {other}, {m}, {other});
    var w4 := Exec(dec, w3, ReadAdded(other));
    assert w4.phase == Adding(kb, {other}, {m}, {});
    var w5 := Exec(dec, w4, Commit);
    Stop(dec, w5);
    Step(dec, w4, Commit, [], w5);
    Step(dec, w3, ReadAdded(other), [Commit] + [], w5);
    Step(dec, w2, StartAdding, [ReadAdded(other)] + ([Commit] + []), w5);
    Step(dec, w1, DeleteRow(m), [StartAdding] + ([ReadAdded(other)] + ([Commit] + [])), w5);
    Step(dec, w, ReadCollection, [DeleteRow(m)] + ([StartAdding] + ([ReadAdded(other)] + ([Commit] + []))), w5);
    assert [ReadCollection] + ([DeleteRow(m)] + ([StartAdding] + ([ReadAdded(other)] + ([Commit] + []))))
        == [ReadCollection, DeleteRow(m), StartAdding, ReadAdded(other), Commit];
  }

  /** A published node whose document carries another id, then dropped from the manifest: its row stays. */
  lemma PublishAndDrop(dec: Decoders, kb: Id, m: Id, doc: Doc, other: Id, c: Doc, c': Doc) returns (actions: seq<Action>)
    requires dec.manifest(c) == {m} && dec.manifest(c') == {other} && other != m && dec.node(m, doc).id != m
    ensures forall i :: 0 <= i < |actions| && actions[i].Mutate? && actions[i].d.KbNode? ==> actions[i] == Mutate(KbNode(kb, m), doc)
    ensures Legal(dec, INITIAL, actions)
    ensures var w := Run(dec, INITIAL, actions);
            && Quiescent(w)
            && w.docs == map[KbNode(kb, m) := doc, KbCollection(kb) := c']
            && RowsOf(w, kb) == map[dec.node(m, doc).id := dec.node(m, doc)]
  {
    hide Legal, Run;
    var publish := PublishOne(dec, kb, m, doc, c);
    var w, coll := Run(dec, INITIAL, publish), KbCollection(kb);
    RunKeeps(dec, INITIAL, publish, kb);
    assert Listed(w, kb) == {m};
    var sent := w.(docs := w.docs[coll := c'], queue := [coll]);
    var w1 := Exec(dec, sent, Receive);
    SwapOne(dec, w1, kb, m, other);
    var swap := [ReadCollection, DeleteRow(m), StartAdding, ReadAdded(other), Commit];
    var w2 := Run(dec, w1, swap);
    Deliver(dec, w, coll, c', swap, w2);
    var drop := [Mutate(coll, c'), Announce(coll), Receive] + swap;
    RunConcat(dec, INITIAL, publish, drop);
    actions := publish + drop;
    assert RowsOf(w, kb) - {m} == RowsOf(w, kb);
    assert w2.docs == map[KbNode(kb, m) := doc, coll := c'];
  }

  /**
   For any class of documents: rebuilding into an empty store agrees with every drained
   incremental run that writes only such documents to the KB, in every visiting order,
   if and only if every document of the class carries the id it is addressed by.
   */
  lemma RebuildMatchesExactly(dec: Decoders, kb: Id, allowed: (Id, Doc) -> bool)
    requires CanList(dec)
    ensures (forall actions, order ::
               && Legal(dec, INITIAL, actions) && WritesOnly(actions, kb, allowed) && Quiescent(Run(dec, INITIAL, actions))
               && IsOrder(order, Manifest(dec, Run(dec, INITIAL, actions).docs, kb)) ==>
                 var w := Run(dec, INITIAL, actions);
                 Overlay(dec, w.docs, kb, map[], order) == RowsOf(w, kb))
       <==> (forall m, doc :: allowed(m, doc) ==> dec.node(m, doc).id == m)
  {
    hide Run, Legal, IsOrder;
    if forall m, doc :: allowed(m, doc) ==> dec.node(m, doc).id == m {
      forall actions, order | && Legal(dec, INITIAL, actions) && WritesOnly(actions, kb, allowed)
                              && Quiescent(Run(dec, INITIAL, actions))
                              && IsOrder(order, Manifest(dec, Run(dec, INITIAL, actions).docs, kb))
        ensures var w := Run(dec, INITIAL, actions);
                Overlay(dec, w.docs, kb, map[], order) == RowsOf(w, kb)
      {
        RebuildMatchesIncremental(dec, actions, kb, order);
      }
    } else {
      var m, doc :| allowed(m, doc) && dec.node(m, doc).id != m;
      var other: Id := m + [0];
      var c :| dec.manifest(c) == {m};
      var c' :| dec.manifest(c') == {other};
      var actions := PublishAndDrop(dec, kb, m, doc, other, c, c');
      var w := Run(dec, INITIAL, actions);
      assert IsOrder([other], Manifest(dec, w.docs, kb)) by {
        OneOrder(other);
      }
      assert [other][..0] == [];
      assert Overlay(dec, w.docs, kb, map[], [other]) == map[];
      assert dec.node(m, doc).id in RowsOf(w, kb);
    }
  }

  lemma OneOrder(n: Id)
    ensures IsOrder([n], {n})
  {
  }

  // ---- After a restart ----

  /** Projecting nodes writes row `n` exactly when `n` is among them and has a document. */
  lemma {:induction false} OverlayAt(dec: Decoders, docs: Docs, kb: Id, rows: Rows, order: seq<Id>, n: Id)
    requires SoleClaim(dec, docs, kb, n)
    ensures RowAt(Overlay(dec, docs, kb, rows, order), n)
         == if n in order && DerivedRow(dec, docs, kb, n).Some? then DerivedRow(dec, docs, kb, n) else RowAt(rows, n)
    decreases |order|
  {
    if order != [] {
      OverlayAt(dec, docs, kb, rows, order[..|order| - 1], n);
      assert order == order[..|order| - 1] + [order[|order| - 1]];
    }
  }

  /** The consumer starts with the manifest registered, over the rows of the last run with the listed nodes projected again. */
  ghost predicate Restarted(dec: Decoders, w: World, kb: Id, rows: Rows, order: seq<Id>) {
    && Quiescent(w)
    && (kb in w.manifests ==> KbCollection(kb) in w.docs)
    && Listed(w, kb) == Manifest(dec, w.docs, kb)
    && IsOrder(order, Manifest(dec, w.docs, kb))
    && RowsOf(w, kb) == Overlay(dec, w.docs, kb, rows, order)
  }

  /**
   After a restart row `n` is right in every drained state of every schedule whose writes are
   honest about `n`, if and only if the documents found at the start derive it or the store
   held no such row: a row left over from before is not removed.
   */
  lemma RestartConvergesExactly(dec: Decoders, w: World, kb: Id, rows: Rows, order: seq<Id>, n: Id)
    requires Restarted(dec, w, kb, rows, order) && OwnKeyed(rows) && SoleClaim(dec, w.docs, kb, n)
    ensures (forall actions ::
               Legal(dec, w, actions) && AllHonest(dec, actions, kb, n) && Quiescent(Run(dec, w, actions)) ==>
                 var w' := Run(dec, w, actions);
                 RowAt(RowsOf(w', kb), n) == RowAt(Truth(dec, w'.docs, kb), n))
       <==> n in Truth(dec, w.docs, kb) || n !in rows
  {
    OverlayAt(dec, w.docs, kb, rows, order, n);
    OverlayKeyed(dec, w.docs, kb, rows, order);
    hide Run, Legal, Overlay;
    if n in Truth(dec, w.docs, kb) || n !in rows {
      assert Inv(dec, w, kb) && RowInv(dec, w, kb, n);
      forall actions | Legal(dec, w, actions) && AllHonest(dec, actions, kb, n) && Quiescent(Run(dec, w, actions))
        ensures var w' := Run(dec, w, actions);
                RowAt(RowsOf(w', kb), n) == RowAt(Truth(dec, w'.docs, kb), n)
      {
        RunKeeps(dec, w, actions, kb);
        RunKeepsRow(dec, w, actions, kb, n);
      }
    } else {
      Stop(dec, w);
      assert AllHonest(dec, [], kb, n);
      assert RowAt(RowsOf(w, kb), n) != RowAt(Truth(dec, w.docs, kb), n);
    }
  }
}
