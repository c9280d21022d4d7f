/**
 The projector's own operations: routing a change, diffing a manifest, rebuilding a KB,
 and reconciling a store against the documents.

 `docs` is what an ordinary read of the document store returns; a name outside it is a
 read that fails. Row writes and deletes succeed. The code visits sets in hash order, so
 what an operation leaves is stated for some visiting order.
 */
module Projectors {
  import opened Basics
  import opened DocNames
  import opened Projection

  datatype ProjectError = Unreadable | NoStore

  // ---- The routing index ----

  predicate Known(nodeToKbs: map<Id, set<Id>>, kb: Id, n: Id) {
    n in nodeToKbs && kb in nodeToKbs[n]
  }

  function Listed(manifests: map<Id, set<Id>>, kb: Id): set<Id> {
    if kb in manifests then manifests[kb] else {}
  }

  /** The reverse index is the exact inverse of the manifests and holds no empty set. */
  ghost predicate Inverse(manifests: map<Id, set<Id>>, nodeToKbs: map<Id, set<Id>>) {
    && (forall n, kb :: Known(nodeToKbs, kb, n) <==> n in Listed(manifests, kb))
    && (forall n :: n in nodeToKbs ==> nodeToKbs[n] != {})
  }

  /** The manifests determine the index. */
  lemma InverseUnique(manifests: map<Id, set<Id>>, a: map<Id, set<Id>>, b: map<Id, set<Id>>)
    requires Inverse(manifests, a) && Inverse(manifests, b)
    ensures a == b
  {
    forall n ensures n in a <==> n in b {
      if n in a {
        var kb :| kb in a[n];
        assert Known(a, kb, n) && Known(b, kb, n);
      }
      if n in b {
        var kb :| kb in b[n];
        assert Known(b, kb, n) && Known(a, kb, n);
      }
    }
    forall n | n in a ensures a[n] == b[n] {
      forall kb ensures kb in a[n] <==> kb in b[n] {
        assert Known(a, kb, n) <==> Known(b, kb, n);
      }
    }
  }

  /** Drop `kb` from the entry of every node in `nodes`, removing entries left empty. */
  method Unlink(index: map<Id, set<Id>>, nodes: set<Id>, kb: Id) returns (index': map<Id, set<Id>>)
    requires forall n :: n in index ==> index[n] != {}
    ensures forall n, k :: Known(index', k, n) <==> Known(index, k, n) && !(k == kb && n in nodes)
    ensures forall n :: n in index' ==> index'[n] != {}
  {
    index' := index;
    var todo := nodes;
    while todo != {}
      invariant todo <= nodes
      invariant forall n, k :: Known(index', k, n) <==> Known(index, k, n) && !(k == kb && n in nodes - todo)
      invariant forall n :: n in index' ==> index'[n] != {}
    {
      var n :| n in todo;
      todo := todo - {n};
      if n in index' {
        ghost var before := index';
        var rest := index'[n] - {kb};
        index' := if rest == {} then index' - {n} else index'[n := rest];
        assert forall k :: k in before[n] ==> k in rest || k == kb;
        assert forall m, k :: Known(index', k, m) <==> Known(before, k, m) && !(k == kb && m == n);
      }
    }
  }

  /** Add `kb` to the entry of every node in `nodes`. */
  method Link(index: map<Id, set<Id>>, nodes: set<Id>, kb: Id) returns (index': map<Id, set<Id>>)
    requires forall n :: n in index ==> index[n] != {}
    ensures forall n, k :: Known(index', k, n) <==> Known(index, k, n) || (k == kb && n in nodes)
    ensures forall n :: n in index' ==> index'[n] != {}
  {
    index' := index;
    var todo := nodes;
    while todo != {}
      invariant todo <= nodes
      invariant forall n, k :: Known(index', k, n) <==> Known(index, k, n) || (k == kb && n in nodes - todo)
      invariant forall n :: n in index' ==> index'[n] != {}
    {
      var n :| n in todo;
      todo := todo - {n};
      index' := index'[n := (if n in index' then index'[n] else {}) + {kb}];
    }
  }

  /** The index for a KB's new manifest: drop the removed nodes, add the current ones. */
  method Reroute(ghost manifests: map<Id, set<Id>>, index: map<Id, set<Id>>, kb: Id, prev: set<Id>, current: set<Id>)
    returns (index': map<Id, set<Id>>)
    requires Inverse(manifests, index) && prev == Listed(manifests, kb)
    ensures Inverse(manifests[kb := current], index')
  {
    index' := Unlink(index, prev - current, kb);
    index' := Link(index', current, kb);
  }

  // ---- Rows ----

  /** Project every node of `nodes` that has a document; skip the others. */
  method ProjectAll(dec: Decoders, docs: Docs, kb: Id, rows: Rows, nodes: set<Id>) returns (rows': Rows)
    ensures exists order :: IsOrder(order, nodes) && rows' == Overlay(dec, docs, kb, rows, order)
  {
    rows' := rows;
    ghost var order := [];
    var todo := nodes;
    while todo != {}
      invariant todo <= nodes
      invariant IsOrder(order, nodes - todo) && rows' == Overlay(dec, docs, kb, rows, order)
    {
      var n :| n in todo;
      todo := todo - {n};
      ghost var visited := order;
      order := order + [n];
      assert order[..|order| - 1] == visited;
      if KbNode(kb, n) in docs {
        var row := dec.node(n, docs[KbNode(kb, n)]);
        rows' := rows'[row.id := row];
      }
    }
    assert nodes - todo == nodes;
  }

  /** The store treats a row with no title, body or tags as deleted. */
  predicate Blank(row: Node) {
    row.title == [] && row.body == [] && row.tags == []
  }

  /** What a written row reads back as: an empty to-do state and version 0 come back as none. */
  function ReadBack(row: Node): Node {
    row.(todoState := if row.todoState == Some([]) then None else row.todoState,
    sourceVersion := if row.sourceVersion == Some(0) then None else row.sourceVersion)
  }

  function GetNode(rows: Rows, n: Id): Option<Node> {
    if n in rows && !Blank(rows[n]) then Some(ReadBack(rows[n])) else None
  }

  /** Listing skips rows without a title. */
  function ListIds(rows: Rows): set<Id> {
    set n | n in rows && rows[n].title != []
  }

  predicate FieldsDiffer(actual: Node, expected: Node) {
    || actual.title != expected.title
    || actual.body != expected.body
    || actual.tags != expected.tags
    || actual.kind != expected.kind
    || actual.todoState != expected.todoState
    || actual.priority != expected.priority
    || actual.aliases != expected.aliases
    || actual.properties != expected.properties
    || actual.sourceVersion != expected.sourceVersion
  }

  datatype DriftReport = DriftReport(missing: set<Id>, differing: set<Id>, extra: set<Id>)

  predicate Clean(r: DriftReport) {
    r.missing == {} && r.differing == {} && r.extra == {}
  }

  predicate IsMissing(rows: Rows, n: Id) {
    GetNode(rows, n).None?
  }

  predicate IsDiffering(rows: Rows, n: Id, expected: Node) {
    GetNode(rows, n).Some? && FieldsDiffer(GetNode(rows, n).value, expected)
  }

  /** The store shows row `n` with every compared field as expected. */
  predicate Agrees(rows: Rows, n: Id, expected: Node) {
    !IsMissing(rows, n) && !IsDiffering(rows, n, expected)
  }

  /** Rows and findings of the comparison loop. */
  datatype Pass = Pass(rows: Rows, missing: set<Id>, differing: set<Id>)

  /** One iteration: a row that is missing or differs is noted and, when healing, written again. */
  function Visit(dec: Decoders, docs: Docs, kb: Id, p: Pass, n: Id, heal: bool): Pass {
    match DerivedRow(dec, docs, kb, n)
    case None => p
    case Some(expected) =>
      if IsMissing(p.rows, n) then
        Pass(if heal then p.rows[expected.id := expected] else p.rows, p.missing + {n}, p.differing)
      else if IsDiffering(p.rows, n, expected) then
        Pass(if heal then p.rows[expected.id := expected] else p.rows, p.missing, p.differing + {n})
      else p
  }

  function Compare(dec: Decoders, docs: Docs, kb: Id, rows: Rows, order: seq<Id>, heal: bool): Pass {
    if order == [] then Pass(rows, {}, {})
    else Visit(dec, docs, kb, Compare(dec, docs, kb, rows, order[..|order| - 1], heal), order[|order| - 1], heal)
  }

  function Extra(rows: Rows, truth: set<Id>): set<Id> {
    ListIds(rows) - truth
  }

  /** The rows healing deletes: unlisted ones whose node document is in memory. */
  function Condemned(rows: Rows, kb: Id, truth: set<Id>, resident: set<DocName>): set<Id> {
    if truth == {} then {} else set n | n in Extra(rows, truth) && KbNode(kb, n) in resident
  }

  /** What a pass over `truth` in the given order reports. */
  function Report(dec: Decoders, docs: Docs, kb: Id, rows: Rows, truth: set<Id>, order: seq<Id>, heal: bool): DriftReport {
    var p := Compare(dec, docs, kb, rows, order, heal);
    DriftReport(p.missing, p.differing, if heal && truth == {} then {} else Extra(p.rows, truth))
  }

  /** What a healing pass over `truth` in the given order leaves. */
  function Healed(dec: Decoders, docs: Docs, kb: Id, rows: Rows, truth: set<Id>, order: seq<Id>, resident: set<DocName>): Rows {
    var p := Compare(dec, docs, kb, rows, order, true);
    p.rows - Condemned(p.rows, kb, truth, resident)
  }

  predicate AllKeyed(stores: map<Id, Rows>) {
    forall kb :: kb in stores ==> OwnKeyed(stores[kb])
  }

  class Projector {
    const dec: Decoders
    var manifests: map<Id, set<Id>>
    var nodeToKbs: map<Id, set<Id>>
    var stores: map<Id, Rows>

    ghost predicate Valid()
      reads this
    {
      Inverse(manifests, nodeToKbs) && AllKeyed(stores)
    }

    function RowsOf(kb: Id): Rows
      reads this
    {
      if kb in stores then stores[kb] else map[]
    }

    constructor (dec: Decoders, stores: map<Id, Rows>)
      requires AllKeyed(stores)
      ensures Valid() && this.dec == dec && manifests == map[] && this.stores == stores
    {
      this.dec := dec;
      manifests := map[];
      nodeToKbs := map[];
      this.stores := stores;
    }

    /** A node document changed: rewrite its row if its KB's manifest lists it. */
    method ProjectNodeChange(docs: Docs, kb: Id, n: Id, storeFails: bool) returns (r: Result<(), ProjectError>)
      requires Valid()
      modifies this`stores
      ensures Valid()
      ensures n !in Listed(manifests, kb) ==> r.Ok? && stores == old(stores)
      ensures n in Listed(manifests, kb) ==>
                r == if KbNode(kb, n) !in docs then Err(Unreadable) else if storeFails then Err(NoStore) else Ok(())
      ensures r.Err? ==> stores == old(stores)
      ensures n in Listed(manifests, kb) && r.Ok? ==>
                var row := DerivedRow(dec, docs, kb, n).value;
                stores == old(stores)[kb := old(RowsOf(kb))[row.id := row]]
    {
      assert Known(nodeToKbs, kb, n) <==> n in Listed(manifests, kb);
      if !Known(nodeToKbs, kb, n) {
        return Ok(());
      }
      if KbNode(kb, n) !in docs {
        return Err(Unreadable);
      }
      if storeFails {
        return Err(NoStore);
      }
      var row := dec.node(n, docs[KbNode(kb, n)]);
      stores := stores[kb := RowsOf(kb)[row.id := row]];
      r := Ok(());
    }

    /** A collection changed: delete rows of removed nodes, project added ones, re-route. */
    method ProjectCollectionChange(docs: Docs, kb: Id, storeFails: bool)
      returns (r: Result<(), ProjectError>, ghost order: seq<Id>)
      requires Valid()
      modifies this
      ensures Valid()
      ensures r == if KbCollection(kb) !in docs then Err(Unreadable) else if storeFails then Err(NoStore) else Ok(())
      ensures r.Err? ==> manifests == old(manifests) && nodeToKbs == old(nodeToKbs) && stores == old(stores)
      ensures r.Ok? ==>
                var prev, current := Listed(old(manifests), kb), Manifest(dec, docs, kb);
                && manifests == old(manifests)[kb := current]
                && IsOrder(order, current - prev)
                && stores == old(stores)[kb := Overlay(dec, docs, kb, old(RowsOf(kb)) - (prev - current), order)]
    {
      hide Overlay, IsOrder, OwnKeyed, Inverse;
      order := [];
      if KbCollection(kb) !in docs {
        return Err(Unreadable), [];
      }
      var current := dec.manifest(docs[KbCollection(kb)]);
      var prev := Listed(manifests, kb);
      if storeFails {
        return Err(NoStore), [];
      }
      var rows := RowsOf(kb) - (prev - current);
      StillKeyed(RowsOf(kb), prev - current);
      OverlayKeyedAll(dec, docs, kb, rows);
      ghost var before := rows;
      rows := ProjectAll(dec, docs, kb, rows, current - prev);
      order :| IsOrder(order, current - prev) && rows == Overlay(dec, docs, kb, before, order);
      stores := stores[kb := rows];
      nodeToKbs := Reroute(manifests, nodeToKbs, kb, prev, current);
      manifests := manifests[kb := current];
      r := Ok(());
    }

    /** Forget the manifest so that every listed node is projected again. */
    method RebuildKb(docs: Docs, kb: Id, storeFails: bool) returns (r: Result<nat, ProjectError>, ghost order: seq<Id>)
      requires Valid()
      modifies this
      ensures Valid()
      ensures r == if KbCollection(kb) !in docs then Err(Unreadable) else if storeFails then Err(NoStore)
                   else Ok(|Manifest(dec, docs, kb)|)
      ensures r.Err? ==> manifests == old(manifests) - {kb} && stores == old(stores)
      ensures r.Ok? ==>
                && manifests == old(manifests)[kb := Manifest(dec, docs, kb)]
                && IsOrder(order, Manifest(dec, docs, kb))
                && stores == old(stores)[kb := Overlay(dec, docs, kb, old(RowsOf(kb)), order)]
    {
      hide Overlay, IsOrder, OwnKeyed;
      if kb in manifests {
        nodeToKbs := Unlink(nodeToKbs, manifests[kb], kb);
        manifests := manifests - {kb};
      }
      assert manifests == old(manifests) - {kb};
      assert Inverse(manifests, nodeToKbs);
      var done;
      done, order := ProjectCollectionChange(docs, kb, storeFails);
      if done.Err? {
        return Err(done.error), order;
      }
      ghost var current := Manifest(dec, docs, kb);
      assert current - {} == current;
      assert old(RowsOf(kb)) - ({} - current) == old(RowsOf(kb));
      r := Ok(|manifests[kb]|);
    }

    /** Compare a KB's rows with what its documents derive and, when asked, heal them. */
    method ReconcileKb(docs: Docs, resident: set<DocName>, kb: Id, heal: bool, storeFails: bool)
      returns (r: Result<DriftReport, ProjectError>, ghost order: seq<Id>)
      modifies this`stores
      ensures r.Ok? <==> KbCollection(kb) in docs && !storeFails
      ensures r.Err? ==> r.error == (if KbCollection(kb) in docs then NoStore else Unreadable) && stores == old(stores)
      ensures r.Ok? ==>
                var truth := Manifest(dec, docs, kb);
                && IsOrder(order, truth)
                && r.value == Report(dec, docs, kb, old(RowsOf(kb)), truth, order, heal)
                && stores == if heal then old(stores)[kb := Healed(dec, docs, kb, old(RowsOf(kb)), truth, order, resident)]
                             else old(stores)
    {
      hide Compare, IsOrder, Condemned, Extra;
      order := [];
      if KbCollection(kb) !in docs {
        return Err(Unreadable), [];
      }
      var truth := dec.manifest(docs[KbCollection(kb)]);
      if storeFails {
        return Err(NoStore), [];
      }
      var p := CompareListed(dec, docs, kb, RowsOf(kb), truth, heal);
      order :| IsOrder(order, truth) && p == Compare(dec, docs, kb, RowsOf(kb), order, heal);
      var rows, extra := ReconcileExtra(p.rows, kb, truth, heal, resident);
      if heal {
        stores := stores[kb := rows];
      }
      r := Ok(DriftReport(p.missing, p.differing, extra));
    }
  }

  lemma StillKeyed(rows: Rows, gone: set<Id>)
    requires OwnKeyed(rows)
    ensures OwnKeyed(rows - gone)
  {
  }

  lemma OverlayKeyedAll(dec: Decoders, docs: Docs, kb: Id, rows: Rows)
    requires OwnKeyed(rows)
    ensures forall order :: OwnKeyed(Overlay(dec, docs, kb, rows, order))
  {
    forall order ensures OwnKeyed(Overlay(dec, docs, kb, rows, order)) {
      OverlayKeyed(dec, docs, kb, rows, order);
    }
  }

  /** Compare every listed node with its row, healing as it goes. */
  method CompareListed(dec: Decoders, docs: Docs, kb: Id, rows: Rows, truth: set<Id>, heal: bool)
    returns (p: Pass)
    ensures exists order :: IsOrder(order, truth) && p == Compare(dec, docs, kb, rows, order, heal)
  {
    hide FieldsDiffer, Blank;
    var rows', missing, differing := rows, {}, {};
    ghost var order := [];
    var todo := truth;
    while todo != {}
      invariant todo <= truth && IsOrder(order, truth - todo)
      invariant Pass(rows', missing, differing) == Compare(dec, docs, kb, rows, order, heal)
    {
      var n :| n in todo;
      todo := todo - {n};
      ghost var visited := order;
      order := order + [n];
      assert order[..|order| - 1] == visited;
      if KbNode(kb, n) in docs {
        var expected := dec.node(n, docs[KbNode(kb, n)]);
        match GetNode(rows', n) {
          case Some(actual) =>
            if FieldsDiffer(actual, expected) {
              differing := differing + {n};
              if heal {
                rows' := rows'[expected.id := expected];
              }
            }
          case None =>
            missing := missing + {n};
            if heal {
              rows' := rows'[expected.id := expected];
            }
        }
      }
    }
    assert truth - todo == truth;
    p := Pass(rows', missing, differing);
  }

  /** Report unlisted rows; when healing, delete those whose node document is in memory. */
  method ReconcileExtra(rows: Rows, kb: Id, truth: set<Id>, heal: bool, resident: set<DocName>)
    returns (rows': Rows, extra: set<Id>)
    ensures rows' == if heal then rows - Condemned(rows, kb, truth, resident) else rows
    ensures extra == if heal && truth == {} then {} else Extra(rows, truth)
  {
    rows', extra := rows, {};
    if heal && truth == {} {
      assert rows - {} == rows;
      return;
    }
    var todo := ListIds(rows);
    while todo != {}
      invariant todo <= ListIds(rows)
      invariant extra == Extra(rows, truth) - todo
      invariant rows' == if heal then rows - (Condemned(rows, kb, truth, resident) - todo) else rows
    {
      var n :| n in todo;
      if n !in truth {
        extra := extra + {n};
        if heal && KbNode(kb, n) in resident {
          rows' := rows' - {n};
        }
      }
      todo := todo - {n};
    }
  }

  // ---- Rebuild and diff ----

  /**
   Rebuilding gives exactly the expected rows, in whatever order it visits the nodes, if and
   only if the listed documents are self-named and no row was there beyond theirs.
   */
  lemma RebuildIsExact(dec: Decoders, docs: Docs, kb: Id, rows: Rows, order: seq<Id>)
    requires OwnKeyed(rows) && IsOrder(order, Manifest(dec, docs, kb))
    ensures Overlay(dec, docs, kb, rows, order) == Truth(dec, docs, kb)
       <==> SelfNamed(dec, docs, kb, Manifest(dec, docs, kb)) && rows.Keys <= Truth(dec, docs, kb).Keys
  {
    OverlayIsExact(dec, docs, kb, rows, order, Manifest(dec, docs, kb));
  }

  /**
   One manifest diff takes exact rows to exact rows, when the kept nodes derive the same
   rows as before, if and only if the documents of the added nodes are self-named.
   */
  lemma DiffIsExact(dec: Decoders, docs: Docs, docs': Docs, kb: Id, prev: set<Id>, current: set<Id>, order: seq<Id>)
    requires SelfNamed(dec, docs, kb, prev) && IsOrder(order, current - prev)
    requires forall n :: n in prev * current ==> DerivedRow(dec, docs', kb, n) == DerivedRow(dec, docs, kb, n)
    ensures Overlay(dec, docs', kb, Expected(dec, docs, kb, prev) - (prev - current), order) == Expected(dec, docs', kb, current)
       <==> SelfNamed(dec, docs', kb, current - prev)
  {
    var rows := Expected(dec, docs, kb, prev) - (prev - current);
    OrderVisits(order, current - prev);
    ExpectedOwnKeyed(dec, docs, kb, prev);
    OverlayKeyed(dec, docs', kb, rows, order);
    ExpectedOwnKeyed(dec, docs', kb, current);
    if SelfNamed(dec, docs', kb, current - prev) {
      OverlaySelfNamed(dec, docs', kb, rows, order);
      assert rows + Expected(dec, docs', kb, current - prev) == Expected(dec, docs', kb, current);
    }
  }
}
