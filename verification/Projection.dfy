/**
 The vocabulary of the query-store projection: rows derived from node documents, the
 manifests that list them, and what a store should hold.

 A row is stored under the id its document carries, which need not be the id the document
 is addressed by: an end-to-end encrypted node document carries none at all.
 */
module Projection {
  import opened Basics
  import opened DocNames

  /** A row of the query store; the last two fields are not compared by reconciliation. */
  datatype Node = Node(
    id: Id, title: Id, body: Id, tags: seq<Id>, kind: Id, todoState: Option<Id>, priority: Option<nat>,
    aliases: seq<Id>, properties: map<Id, Id>, sourceVersion: Option<nat>,
    source: Option<Id>, crdtDoc: Option<Doc>)

  type Rows = map<Id, Node>

  /**
   How documents decode: the node ids a collection lists, and the row a node document
   derives when it is addressed by a given id. States come from the document store, which
   has just encoded them, so decoding them succeeds.
   */
  datatype Decoders = Decoders(manifest: Doc -> set<Id>, node: (Id, Doc) -> Node)

  /** The nodes `kb` lists; none while it has no collection document. */
  function Manifest(dec: Decoders, docs: Docs, kb: Id): set<Id> {
    if KbCollection(kb) in docs then dec.manifest(docs[KbCollection(kb)]) else {}
  }

  /** The row node `n` of `kb` derives, when its document is there. */
  function DerivedRow(dec: Decoders, docs: Docs, kb: Id, n: Id): Option<Node> {
    if KbNode(kb, n) in docs then Some(dec.node(n, docs[KbNode(kb, n)])) else None
  }

  /** The derivation of every existing document among `nodes`. */
  function Expected(dec: Decoders, docs: Docs, kb: Id, nodes: set<Id>): Rows {
    map n | n in nodes && DerivedRow(dec, docs, kb, n).Some? :: DerivedRow(dec, docs, kb, n).value
  }

  /** The projection a KB should have. */
  function Truth(dec: Decoders, docs: Docs, kb: Id): Rows {
    Expected(dec, docs, kb, Manifest(dec, docs, kb))
  }

  function RowAt(rows: Rows, n: Id): Option<Node> {
    if n in rows then Some(rows[n]) else None
  }

  /** Every row sits under its own id, as the store's key demands. */
  predicate OwnKeyed(rows: Rows) {
    forall n :: n in rows ==> rows[n].id == n
  }

  /** The documents of `nodes` carry the ids they are addressed by. */
  predicate SelfNamed(dec: Decoders, docs: Docs, kb: Id, nodes: set<Id>) {
    forall n :: n in nodes && KbNode(kb, n) in docs ==> dec.node(n, docs[KbNode(kb, n)]).id == n
  }

  /** A store can hold exactly the derivation of `nodes` only if their documents are self-named. */
  lemma ExpectedOwnKeyed(dec: Decoders, docs: Docs, kb: Id, nodes: set<Id>)
    ensures OwnKeyed(Expected(dec, docs, kb, nodes)) <==> SelfNamed(dec, docs, kb, nodes)
  {
    var expected := Expected(dec, docs, kb, nodes);
    if OwnKeyed(expected) {
      forall n | n in nodes && KbNode(kb, n) in docs ensures dec.node(n, docs[KbNode(kb, n)]).id == n {
        assert n in expected;
      }
    }
  }

  // ---- Writing rows in some order ----

  /** `order` visits every node of `nodes` once. */
  ghost predicate IsOrder(order: seq<Id>, nodes: set<Id>) {
    && (forall n :: n in order <==> n in nodes)
    && (forall i, j :: 0 <= i < j < |order| ==> order[i] != order[j])
  }

  /** The rows after the nodes of `order` were projected one by one, each under the id it carries. */
  function Overlay(dec: Decoders, docs: Docs, kb: Id, rows: Rows, order: seq<Id>): Rows {
    if order == [] then rows
    else
      var before := Overlay(dec, docs, kb, rows, order[..|order| - 1]);
      match DerivedRow(dec, docs, kb, order[|order| - 1])
      case None => before
      case Some(row) => before[row.id := row]
  }

  lemma {:induction false} OverlayKeyed(dec: Decoders, docs: Docs, kb: Id, rows: Rows, order: seq<Id>)
    ensures OwnKeyed(rows) ==> OwnKeyed(Overlay(dec, docs, kb, rows, order))
    ensures rows.Keys <= Overlay(dec, docs, kb, rows, order).Keys
    decreases |order|
  {
    if order != [] {
      OverlayKeyed(dec, docs, kb, rows, order[..|order| - 1]);
    }
  }

  lemma ExpectedNone(dec: Decoders, docs: Docs, kb: Id)
    ensures Expected(dec, docs, kb, {}) == map[]
  {
  }

  lemma ExpectedStep(dec: Decoders, docs: Docs, kb: Id, seen: set<Id>, n: Id)
    ensures var row := DerivedRow(dec, docs, kb, n);
            var before := Expected(dec, docs, kb, seen);
            Expected(dec, docs, kb, seen + {n}) == if row.Some? then before[n := row.value] else before
  {
  }

  ghost function Visited(order: seq<Id>): set<Id> {
    set n | n in order
  }

  lemma VisitedStep(order: seq<Id>)
    requires order != []
    ensures Visited(order) == Visited(order[..|order| - 1]) + {order[|order| - 1]}
  {
    assert order == order[..|order| - 1] + [order[|order| - 1]];
  }

  /** With self-named documents the order does not matter. */
  lemma {:induction false} OverlaySelfNamed(dec: Decoders, docs: Docs, kb: Id, rows: Rows, order: seq<Id>)
    requires SelfNamed(dec, docs, kb, Visited(order))
    ensures Overlay(dec, docs, kb, rows, order) == rows + Expected(dec, docs, kb, Visited(order))
    decreases |order|
  {
    hide Expected;
    if order == [] {
      ExpectedNone(dec, docs, kb);
      assert Visited(order) == {} && rows + map[] == rows;
    } else {
      VisitedStep(order);
      OverlaySelfNamed(dec, docs, kb, rows, order[..|order| - 1]);
      ExpectedStep(dec, docs, kb, Visited(order[..|order| - 1]), order[|order| - 1]);
    }
  }

  lemma OrderVisits(order: seq<Id>, nodes: set<Id>)
    requires IsOrder(order, nodes)
    ensures Visited(order) == nodes
  {
  }

  lemma OrderOf(nodes: set<Id>) returns (order: seq<Id>)
    ensures IsOrder(order, nodes)
  {
    var rest := nodes;
    order := [];
    while rest != {}
      invariant rest <= nodes && IsOrder(order, nodes - rest)
    {
      var n :| n in rest;
      rest, order := rest - {n}, order + [n];
    }
    assert nodes - rest == nodes;
  }

  /**
   Projecting `nodes` into a store, in whatever order, leaves exactly their derivation if and
   only if their documents are self-named and the store held no row beyond them.
   */
  lemma OverlayIsExact(dec: Decoders, docs: Docs, kb: Id, rows: Rows, order: seq<Id>, nodes: set<Id>)
    requires OwnKeyed(rows) && IsOrder(order, nodes)
    ensures Overlay(dec, docs, kb, rows, order) == Expected(dec, docs, kb, nodes)
       <==> SelfNamed(dec, docs, kb, nodes) && rows.Keys <= Expected(dec, docs, kb, nodes).Keys
  {
    hide Overlay, Expected, SelfNamed;
    OrderVisits(order, nodes);
    OverlayKeyed(dec, docs, kb, rows, order);
    ExpectedOwnKeyed(dec, docs, kb, nodes);
    if SelfNamed(dec, docs, kb, nodes) {
      OverlaySelfNamed(dec, docs, kb, rows, order);
    }
  }
}
