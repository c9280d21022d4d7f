/**
 What reconciliation achieves. A healing pass visits the listed nodes in some order and
 writes rows under the ids their documents carry, so its effect can depend on the order;
 the results here hold for every order, or say exactly when they do.
 */
module Healing {
  import opened Basics
  import opened DocNames
  import opened Projection
  import opened Projectors

  // ---- What the comparison sees ----

  /**
   A stored row agrees with an expected one exactly when it has a title, body or tag and,
   read back, differs from it in nothing but the id, the provenance and the stored
   document. Reading back turns an empty to-do state and version 0 into none.
   */
  lemma AgreesExactly(rows: Rows, n: Id, expected: Node)
    ensures Agrees(rows, n, expected) <==>
            && n in rows
            && (rows[n].title != [] || rows[n].body != [] || rows[n].tags != [])
            && rows[n].(id := expected.id, source := expected.source, crdtDoc := expected.crdtDoc,
                        todoState := if rows[n].todoState == Some([]) then None else rows[n].todoState,
                        sourceVersion := if rows[n].sourceVersion == Some(0) then None else rows[n].sourceVersion)
               == expected
  {
  }

  /** A row is missing exactly when there is none or it has neither title nor body nor tags; otherwise it agrees or differs. */
  lemma MissingExactly(rows: Rows, n: Id, expected: Node)
    ensures IsMissing(rows, n) <==> n !in rows || (rows[n].title == [] && rows[n].body == [] && rows[n].tags == [])
    ensures !IsMissing(rows, n) ==> (IsDiffering(rows, n, expected) <==> !Agrees(rows, n, expected))
  {
  }

  /** Healing deletes exactly the titled rows outside a non-empty manifest whose node document is in memory. */
  lemma CondemnedExactly(rows: Rows, kb: Id, truth: set<Id>, resident: set<DocName>, n: Id)
    ensures n in Condemned(rows, kb, truth, resident) <==>
            n in rows && rows[n].title != [] && n !in truth && KbNode(kb, n) in resident && truth != {}
    ensures n in Extra(rows, truth) <==> n in rows && rows[n].title != [] && n !in truth
  {
  }

  /** The fields reconciliation is responsible for. */
  function Compared(row: Node): Node {
    row.(id := [], source := None, crdtDoc := None)
  }

  /** The store shows exactly the derived rows of `nodes`, up to the fields that are not compared. */
  predicate ShowsTruth(dec: Decoders, docs: Docs, kb: Id, rows: Rows, nodes: set<Id>) {
    var expected := Expected(dec, docs, kb, nodes);
    forall n :: n in expected ==> GetNode(rows, n).Some? && Compared(GetNode(rows, n).value) == Compared(expected[n])
  }

  lemma AllAgreeExactly(dec: Decoders, docs: Docs, kb: Id, rows: Rows, nodes: set<Id>)
    ensures AllAgree(dec, docs, kb, rows, nodes) <==> ShowsTruth(dec, docs, kb, rows, nodes)
  {
    var expected := Expected(dec, docs, kb, nodes);
    forall n | n in expected
      ensures Agrees(rows, n, expected[n]) <==> GetNode(rows, n).Some? && Compared(GetNode(rows, n).value) == Compared(expected[n])
    {
    }
    if ShowsTruth(dec, docs, kb, rows, nodes) {
      forall n | n in nodes && DerivedRow(dec, docs, kb, n).Some?
        ensures Agrees(rows, n, DerivedRow(dec, docs, kb, n).value)
      {
        assert n in expected;
      }
    }
  }

  // ---- Detection ----

  function Missing(dec: Decoders, docs: Docs, kb: Id, rows: Rows, truth: set<Id>): set<Id> {
    set n | n in truth && DerivedRow(dec, docs, kb, n).Some? && IsMissing(rows, n)
  }

  function Differing(dec: Decoders, docs: Docs, kb: Id, rows: Rows, truth: set<Id>): set<Id> {
    set n | n in truth && DerivedRow(dec, docs, kb, n).Some? && IsDiffering(rows, n, DerivedRow(dec, docs, kb, n).value)
  }

  function Drifted(dec: Decoders, docs: Docs, kb: Id, rows: Rows, truth: set<Id>): set<Id> {
    Missing(dec, docs, kb, rows, truth) + Differing(dec, docs, kb, rows, truth)
  }

  lemma DriftStep(dec: Decoders, docs: Docs, kb: Id, rows: Rows, seen: set<Id>, n: Id)
    ensures var derived := DerivedRow(dec, docs, kb, n);
            && Missing(dec, docs, kb, rows, seen + {n})
            == Missing(dec, docs, kb, rows, seen) + (if derived.Some? && IsMissing(rows, n) then {n} else {})
            && Differing(dec, docs, kb, rows, seen + {n})
            == Differing(dec, docs, kb, rows, seen) + (if derived.Some? && IsDiffering(rows, n, derived.value) then {n} else {})
  {
  }

  lemma DriftNone(dec: Decoders, docs: Docs, kb: Id, rows: Rows)
    ensures Missing(dec, docs, kb, rows, {}) == {} == Differing(dec, docs, kb, rows, {})
  {
  }

  /** Detecting changes nothing and finds exactly the missing and differing rows, in any order. */
  lemma {:induction false} DetectIsExact(dec: Decoders, docs: Docs, kb: Id, rows: Rows, order: seq<Id>)
    ensures Compare(dec, docs, kb, rows, order, false)
         == Pass(rows, Missing(dec, docs, kb, rows, Visited(order)), Differing(dec, docs, kb, rows, Visited(order)))
    decreases |order|
  {
    hide Missing, Differing, FieldsDiffer, Blank;
    if order == [] {
      assert Visited(order) == {};
      DriftNone(dec, docs, kb, rows);
    } else {
      VisitedStep(order);
      DetectIsExact(dec, docs, kb, rows, order[..|order| - 1]);
      DriftStep(dec, docs, kb, rows, Visited(order[..|order| - 1]), order[|order| - 1]);
    }
  }

  /** A detecting pass reports every titled row the manifest does not list, even when the manifest is empty. */
  lemma DetectReports(dec: Decoders, docs: Docs, kb: Id, rows: Rows, truth: set<Id>, order: seq<Id>)
    requires IsOrder(order, truth)
    ensures Report(dec, docs, kb, rows, truth, order, false)
         == DriftReport(Missing(dec, docs, kb, rows, truth), Differing(dec, docs, kb, rows, truth),
                        set n | n in rows && rows[n].title != [] && n !in truth)
  {
    hide Missing, Differing, Compare;
    DetectIsExact(dec, docs, kb, rows, order);
    assert Visited(order) == truth;
  }

  // ---- A pass that finds nothing ----

  /** Every listed node that derives a row is shown as derived. */
  predicate AllAgree(dec: Decoders, docs: Docs, kb: Id, rows: Rows, nodes: set<Id>) {
    forall n :: n in nodes && DerivedRow(dec, docs, kb, n).Some? ==> Agrees(rows, n, DerivedRow(dec, docs, kb, n).value)
  }

  lemma AgreeStep(dec: Decoders, docs: Docs, kb: Id, rows: Rows, seen: set<Id>, n: Id)
    ensures AllAgree(dec, docs, kb, rows, seen + {n}) <==>
            && AllAgree(dec, docs, kb, rows, seen)
            && (DerivedRow(dec, docs, kb, n).Some? ==> Agrees(rows, n, DerivedRow(dec, docs, kb, n).value))
  {
    hide Agrees;
  }

  /** A pass, healing or not, reports nothing missing or differing exactly when all rows agree; it then writes nothing. */
  lemma {:induction false} QuietPass(dec: Decoders, docs: Docs, kb: Id, rows: Rows, order: seq<Id>, heal: bool)
    ensures var p := Compare(dec, docs, kb, rows, order, heal);
            && (p.missing == {} && p.differing == {} <==> AllAgree(dec, docs, kb, rows, Visited(order)))
            && (AllAgree(dec, docs, kb, rows, Visited(order)) ==> p.rows == rows)
    decreases |order|
  {
    hide AllAgree, IsMissing, IsDiffering;
    if order == [] {
      assert Visited(order) == {};
      NoneDisagree(dec, docs, kb, rows);
    } else {
      VisitedStep(order);
      QuietPass(dec, docs, kb, rows, order[..|order| - 1], heal);
      AgreeStep(dec, docs, kb, rows, Visited(order[..|order| - 1]), order[|order| - 1]);
    }
  }

  lemma NoneDisagree(dec: Decoders, docs: Docs, kb: Id, rows: Rows)
    ensures AllAgree(dec, docs, kb, rows, {})
  {
  }

  // ---- What a healing pass touches ----

  /** The ids under which the documents of `nodes` are written. */
  function CarriedIds(dec: Decoders, docs: Docs, kb: Id, nodes: set<Id>): set<Id> {
    set n | n in nodes && DerivedRow(dec, docs, kb, n).Some? :: DerivedRow(dec, docs, kb, n).value.id
  }

  lemma {:induction false} CompareTouchesOnly(dec: Decoders, docs: Docs, kb: Id, rows: Rows, order: seq<Id>, k: Id)
    requires k !in CarriedIds(dec, docs, kb, Visited(order))
    ensures RowAt(Compare(dec, docs, kb, rows, order, true).rows, k) == RowAt(rows, k)
    decreases |order|
  {
    hide IsMissing, IsDiffering;
    if order != [] {
      VisitedStep(order);
      var last := order[|order| - 1];
      assert DerivedRow(dec, docs, kb, last).Some? ==> DerivedRow(dec, docs, kb, last).value.id != k;
      CompareTouchesOnly(dec, docs, kb, rows, order[..|order| - 1], k);
    }
  }

  /**
   In whatever order it visits the nodes, healing deletes exactly the condemned rows and
   writes only under ids that listed documents carry.
   */
  lemma HealingTouchesOnly(dec: Decoders, docs: Docs, kb: Id, rows: Rows, truth: set<Id>, order: seq<Id>, resident: set<DocName>, k: Id)
    requires IsOrder(order, truth) && k !in CarriedIds(dec, docs, kb, truth)
    ensures RowAt(Healed(dec, docs, kb, rows, truth, order, resident), k)
         == if k in Condemned(rows, kb, truth, resident) then None else RowAt(rows, k)
  {
    hide Compare, CarriedIds;
    OrderVisits(order, truth);
    CompareTouchesOnly(dec, docs, kb, rows, order, k);
  }

  // ---- Self-named documents: the order does not matter ----

  lemma ExpectedOutside(dec: Decoders, docs: Docs, kb: Id, nodes: set<Id>, n: Id)
    requires n !in nodes
    ensures n !in Expected(dec, docs, kb, nodes)
  {
  }

  lemma DriftWithin(dec: Decoders, docs: Docs, kb: Id, rows: Rows, seen: set<Id>)
    ensures Drifted(dec, docs, kb, rows, seen) <= seen
  {
  }

  /** Healing self-named documents rewrites exactly the drifted rows, each as derived. */
  lemma {:induction false} HealSelfNamed(dec: Decoders, docs: Docs, kb: Id, rows: Rows, order: seq<Id>)
    requires SelfNamed(dec, docs, kb, Visited(order))
    requires forall i, j :: 0 <= i < j < |order| ==> order[i] != order[j]
    ensures var p, nodes := Compare(dec, docs, kb, rows, order, true), Visited(order);
            && p.missing == Missing(dec, docs, kb, rows, nodes)
            && p.differing == Differing(dec, docs, kb, rows, nodes)
            && p.rows == rows + Expected(dec, docs, kb, Drifted(dec, docs, kb, rows, nodes))
    decreases |order|
  {
    hide Missing, Differing, Expected, FieldsDiffer, Blank, SelfNamed;
    if order == [] {
      assert Visited(order) == {};
      DriftNone(dec, docs, kb, rows);
      assert Drifted(dec, docs, kb, rows, {}) == {};
      ExpectedNone(dec, docs, kb);
      assert rows + map[] == rows;
    } else {
      var rest, n := order[..|order| - 1], order[|order| - 1];
      var seen := Visited(rest);
      VisitedStep(order);
      NamedStep(dec, docs, kb, seen, n);
      HealSelfNamed(dec, docs, kb, rows, rest);
      DriftStep(dec, docs, kb, rows, seen, n);
      DriftWithin(dec, docs, kb, rows, seen);
      var before := Drifted(dec, docs, kb, rows, seen);
      ExpectedOutside(dec, docs, kb, before, n);
      ExpectedStep(dec, docs, kb, before, n);
      HealStep(dec, docs, kb, rows, seen, n);
    }
  }

  /** The visited node's own row is still as it was before the pass. */
  lemma HealStep(dec: Decoders, docs: Docs, kb: Id, rows: Rows, seen: set<Id>, n: Id)
    ensures var derived := DerivedRow(dec, docs, kb, n);
            var drifted := derived.Some? && (IsMissing(rows, n) || IsDiffering(rows, n, derived.value));
            Drifted(dec, docs, kb, rows, seen + {n}) == Drifted(dec, docs, kb, rows, seen) + (if drifted then {n} else {})
  {
    hide Missing, Differing, IsMissing, IsDiffering;
    DriftStep(dec, docs, kb, rows, seen, n);
  }

  lemma NamedStep(dec: Decoders, docs: Docs, kb: Id, seen: set<Id>, n: Id)
    requires SelfNamed(dec, docs, kb, seen + {n})
    ensures SelfNamed(dec, docs, kb, seen)
    ensures DerivedRow(dec, docs, kb, n).Some? ==> DerivedRow(dec, docs, kb, n).value.id == n
  {
  }

  /** The rows healing leaves of self-named documents. */
  lemma HealedSelfNamed(dec: Decoders, docs: Docs, kb: Id, rows: Rows, truth: set<Id>, order: seq<Id>, resident: set<DocName>)
    requires IsOrder(order, truth) && SelfNamed(dec, docs, kb, truth)
    ensures var written := rows + Expected(dec, docs, kb, Drifted(dec, docs, kb, rows, truth));
            && Healed(dec, docs, kb, rows, truth, order, resident) == written - Condemned(rows, kb, truth, resident)
            && Extra(written, truth) == Extra(rows, truth)
  {
    hide Compare, Missing, Differing, SelfNamed, Expected;
    OrderVisits(order, truth);
    HealSelfNamed(dec, docs, kb, rows, order);
    DriftWithin(dec, docs, kb, rows, truth);
    var drifted := Drifted(dec, docs, kb, rows, truth);
    var written := rows + Expected(dec, docs, kb, drifted);
    forall k | k !in truth ensures RowAt(written, k) == RowAt(rows, k) {
      ExpectedOutside(dec, docs, kb, drifted, k);
    }
    ExtraOutside(rows, written, truth);
  }

  lemma ExtraOutside(a: Rows, b: Rows, truth: set<Id>)
    requires forall k :: k !in truth ==> RowAt(b, k) == RowAt(a, k)
    ensures Extra(b, truth) == Extra(a, truth)
  {
    forall k | k !in truth ensures k in ListIds(a) <==> k in ListIds(b) {
      assert RowAt(b, k) == RowAt(a, k);
    }
  }

  /** Each listed row after healing self-named documents. */
  lemma HealedAt(dec: Decoders, docs: Docs, kb: Id, rows: Rows, truth: set<Id>, order: seq<Id>, resident: set<DocName>, n: Id)
    requires IsOrder(order, truth) && SelfNamed(dec, docs, kb, truth)
    requires n in truth && DerivedRow(dec, docs, kb, n).Some?
    ensures var healed, expected := Healed(dec, docs, kb, rows, truth, order, resident), DerivedRow(dec, docs, kb, n).value;
            RowAt(healed, n) == if Agrees(rows, n, expected) then RowAt(rows, n) else Some(expected)
  {
    hide Compare, SelfNamed, IsOrder, FieldsDiffer, Blank;
    HealedSelfNamed(dec, docs, kb, rows, truth, order, resident);
  }

  // ---- When healing reaches the truth ----

  /** The store shows this row as it was written: it is not blank, and no field is lost on the way back. */
  predicate Showable(row: Node) {
    !Blank(row) && row.todoState != Some([]) && row.sourceVersion != Some(0)
  }

  /** A row under its own id is shown as derived exactly when it is showable. */
  lemma ShowableExactly(row: Node)
    ensures Showable(row) <==> Agrees(map[row.id := row], row.id, row)
  {
  }

  /** The store can show every listed document's row: each is showable and carries its own id. */
  predicate Representable(dec: Decoders, docs: Docs, kb: Id, truth: set<Id>) {
    forall n :: n in truth && KbNode(kb, n) in docs ==>
      var row := dec.node(n, docs[KbNode(kb, n)]);
      row.id == n && Showable(row)
  }

  lemma RepresentableAgrees(dec: Decoders, docs: Docs, kb: Id, rows: Rows, truth: set<Id>, order: seq<Id>, resident: set<DocName>)
    requires IsOrder(order, truth) && Representable(dec, docs, kb, truth)
    ensures AllAgree(dec, docs, kb, Healed(dec, docs, kb, rows, truth, order, resident), truth)
  {
    hide Healed, IsOrder;
    forall n | n in truth && DerivedRow(dec, docs, kb, n).Some?
      ensures Agrees(Healed(dec, docs, kb, rows, truth, order, resident), n, DerivedRow(dec, docs, kb, n).value)
    {
      HealedAt(dec, docs, kb, rows, truth, order, resident, n);
    }
  }

  /** A row that is not showable is never shown as derived, whatever is stored. */
  lemma NeverAgrees(rows: Rows, n: Id, expected: Node)
    requires !Showable(expected)
    ensures !Agrees(rows, n, expected)
  {
  }

  /** What a pass has found stays found. */
  lemma {:induction false} FindingsStay(dec: Decoders, docs: Docs, kb: Id, rows: Rows, order: seq<Id>, k: nat, heal: bool)
    requires k <= |order|
    ensures var early, late := Compare(dec, docs, kb, rows, order[..k], heal), Compare(dec, docs, kb, rows, order, heal);
            early.missing <= late.missing && early.differing <= late.differing
    decreases |order|
  {
    hide IsMissing, IsDiffering;
    if k == |order| {
      assert order[..k] == order;
    } else {
      FindingsStay(dec, docs, kb, rows, order[..|order| - 1], k, heal);
      assert order[..|order| - 1][..k] == order[..k];
    }
  }

  /**
   A listed document whose row is not showable is reported by every pass, healing or not,
   over whatever rows and in whatever order. A node created in the editor is one: its
   document carries source version 0, which the store reads back as none.
   */
  lemma UnshowableIsAlwaysReported(dec: Decoders, docs: Docs, kb: Id, rows: Rows, order: seq<Id>, heal: bool, n: Id)
    requires n in order && KbNode(kb, n) in docs && !Showable(dec.node(n, docs[KbNode(kb, n)]))
    ensures var p := Compare(dec, docs, kb, rows, order, heal);
            n in p.missing + p.differing
  {
    hide IsMissing, IsDiffering, Showable;
    var i :| 0 <= i < |order| && order[i] == n;
    FindingsStay(dec, docs, kb, rows, order, i + 1, heal);
    assert order[..i + 1][..i] == order[..i];
    NeverAgrees(Compare(dec, docs, kb, rows, order[..i], heal).rows, n, dec.node(n, docs[KbNode(kb, n)]));
  }

  /** The editor's own case: a titled node, stored with source version 0, differs on every pass that finds its row. */
  lemma EditorNodeDiffers(row: Node)
    requires row.title != [] && row.sourceVersion == Some(0)
    ensures !Showable(row) && IsDiffering(map[row.id := row], row.id, row)
  {
  }

  /** The rows of every node but `n`, right and under their own ids. */
  function AllBut(dec: Decoders, docs: Docs, kb: Id, truth: set<Id>, n: Id): Rows {
    map m | m in truth - {n} && DerivedRow(dec, docs, kb, m).Some? :: DerivedRow(dec, docs, kb, m).value.(id := m)
  }

  /** Starting from those rows and coming to `n` last, a pass writes `n`'s row under the id it carries. */
  lemma ForeignIdStaysMissing(dec: Decoders, docs: Docs, kb: Id, truth: set<Id>, n: Id, rest: seq<Id>, resident: set<DocName>)
    requires n in truth && KbNode(kb, n) in docs && dec.node(n, docs[KbNode(kb, n)]).id != n
    requires forall m :: m in truth && KbNode(kb, m) in docs ==> Showable(dec.node(m, docs[KbNode(kb, m)]))
    requires IsOrder(rest, truth - {n})
    ensures IsOrder(rest + [n], truth)
    ensures n !in Healed(dec, docs, kb, AllBut(dec, docs, kb, truth, n), truth, rest + [n], resident)
  {
    hide FieldsDiffer, Blank, Compare, Condemned;
    var rows := AllBut(dec, docs, kb, truth, n);
    OrderVisits(rest, truth - {n});
    assert AllAgree(dec, docs, kb, rows, truth - {n}) by {
      AllButAgree(dec, docs, kb, truth, n);
    }
    QuietPass(dec, docs, kb, rows, rest, true);
    assert (rest + [n])[..|rest|] == rest;
    assert Compare(dec, docs, kb, rows, rest + [n], true) == Visit(dec, docs, kb, Compare(dec, docs, kb, rows, rest, true), n, true) by {
      CompareSnoc(dec, docs, kb, rows, rest, n);
    }
  }

  lemma CompareSnoc(dec: Decoders, docs: Docs, kb: Id, rows: Rows, rest: seq<Id>, n: Id)
    ensures Compare(dec, docs, kb, rows, rest + [n], true) == Visit(dec, docs, kb, Compare(dec, docs, kb, rows, rest, true), n, true)
  {
    assert (rest + [n])[..|rest|] == rest;
  }

  lemma AllButAgree(dec: Decoders, docs: Docs, kb: Id, truth: set<Id>, n: Id)
    requires forall m :: m in truth && KbNode(kb, m) in docs ==> Showable(dec.node(m, docs[KbNode(kb, m)]))
    ensures AllAgree(dec, docs, kb, AllBut(dec, docs, kb, truth, n), truth - {n})
    ensures OwnKeyed(AllBut(dec, docs, kb, truth, n)) && AllBut(dec, docs, kb, truth, n).Keys <= truth
  {
  }

  /** Some store and order for which healing does not reach the truth. */
  lemma UnhealedWitness(dec: Decoders, docs: Docs, kb: Id, truth: set<Id>, resident: set<DocName>)
    returns (rows: Rows, order: seq<Id>)
    requires !Representable(dec, docs, kb, truth)
    ensures OwnKeyed(rows) && rows.Keys <= truth && IsOrder(order, truth)
    ensures !AllAgree(dec, docs, kb, Healed(dec, docs, kb, rows, truth, order, resident), truth)
  {
    hide Healed, FieldsDiffer;
    if n :| n in truth && KbNode(kb, n) in docs && !Showable(dec.node(n, docs[KbNode(kb, n)])) {
      rows := map[];
      order := OrderOf(truth);
      NeverAgrees(Healed(dec, docs, kb, rows, truth, order, resident), n, dec.node(n, docs[KbNode(kb, n)]));
      assert DerivedRow(dec, docs, kb, n).Some?;
    } else {
      var n :| n in truth && KbNode(kb, n) in docs && dec.node(n, docs[KbNode(kb, n)]).id != n;
      rows := AllBut(dec, docs, kb, truth, n);
      AllButAgree(dec, docs, kb, truth, n);
      var rest := OrderOf(truth - {n});
      order := rest + [n];
      ForeignIdStaysMissing(dec, docs, kb, truth, n, rest, resident);
      assert DerivedRow(dec, docs, kb, n).Some?;
    }
  }

  /**
   Healing makes the store show exactly the true rows of the listed documents, up to the
   fields that are not compared, from whatever rows it starts and in whatever order it
   goes, if and only if every listed document derives a showable row and carries the id it
   is addressed by.
   */
  lemma HealingReachesTruth(dec: Decoders, docs: Docs, kb: Id, truth: set<Id>, resident: set<DocName>)
    ensures (forall rows, order :: OwnKeyed(rows) && IsOrder(order, truth) ==>
               ShowsTruth(dec, docs, kb, Healed(dec, docs, kb, rows, truth, order, resident), truth))
       <==> Representable(dec, docs, kb, truth)
  {
    hide Healed, IsOrder, AllAgree, Representable, OwnKeyed, ShowsTruth;
    if Representable(dec, docs, kb, truth) {
      forall rows, order | OwnKeyed(rows) && IsOrder(order, truth)
        ensures ShowsTruth(dec, docs, kb, Healed(dec, docs, kb, rows, truth, order, resident), truth)
      {
        RepresentableAgrees(dec, docs, kb, rows, truth, order, resident);
        AllAgreeExactly(dec, docs, kb, Healed(dec, docs, kb, rows, truth, order, resident), truth);
      }
    } else {
      var rows, order := UnhealedWitness(dec, docs, kb, truth, resident);
      AllAgreeExactly(dec, docs, kb, Healed(dec, docs, kb, rows, truth, order, resident), truth);
    }
  }

  // ---- When a second pass is clean ----

  /** A pass is clean exactly when all listed rows agree and no unlisted row is there. */
  lemma CleanExactly(dec: Decoders, docs: Docs, kb: Id, rows: Rows, truth: set<Id>, order: seq<Id>)
    requires IsOrder(order, truth) && truth != {}
    ensures Clean(Report(dec, docs, kb, rows, truth, order, true))
       <==> AllAgree(dec, docs, kb, rows, truth) && Extra(rows, truth) == {}
  {
    hide Compare, AllAgree, Extra, IsOrder;
    OrderVisits(order, truth);
    QuietPass(dec, docs, kb, rows, order, true);
  }

  lemma NamedIfRepresentable(dec: Decoders, docs: Docs, kb: Id, truth: set<Id>)
    requires Representable(dec, docs, kb, truth)
    ensures SelfNamed(dec, docs, kb, truth)
  {
    hide Blank;
  }

  /** What healing leaves unlisted: the rows without a resident document. */
  lemma HealedExtra(dec: Decoders, docs: Docs, kb: Id, rows: Rows, truth: set<Id>, order: seq<Id>, resident: set<DocName>)
    requires IsOrder(order, truth) && truth != {} && SelfNamed(dec, docs, kb, truth)
    ensures Extra(Healed(dec, docs, kb, rows, truth, order, resident), truth)
         == set k | k in Extra(rows, truth) && KbNode(kb, k) !in resident
  {
    hide Healed, SelfNamed, IsOrder, Expected, Drifted;
    HealedSelfNamed(dec, docs, kb, rows, truth, order, resident);
    var written := rows + Expected(dec, docs, kb, Drifted(dec, docs, kb, rows, truth));
    ExtraAfter(written, Condemned(rows, kb, truth, resident), truth);
  }

  lemma ExtraAfter(rows: Rows, gone: set<Id>, truth: set<Id>)
    ensures Extra(rows - gone, truth) == Extra(rows, truth) - gone
  {
  }

  /** A store with the one unlisted row `k`. */
  function OneRow(k: Id): Rows {
    map[k := Node.Node(k, [65], [], [], [], None, None, [], map[], None, None, None)]
  }

  /**
   Healing is idempotent, from every store whose unlisted rows are among `extras` and for
   every visiting order of either pass, if and only if every listed document derives a
   showable row and carries the id it is addressed by, and the document of every unlisted
   id in `extras` is in memory.
   */
  lemma HealingIsIdempotent(dec: Decoders, docs: Docs, kb: Id, truth: set<Id>, extras: set<Id>, resident: set<DocName>)
    requires truth != {}
    ensures (forall rows, first, second ::
               OwnKeyed(rows) && ListIds(rows) <= truth + extras && IsOrder(first, truth) && IsOrder(second, truth) ==>
                 Clean(Report(dec, docs, kb, Healed(dec, docs, kb, rows, truth, first, resident), truth, second, true)))
       <==> && Representable(dec, docs, kb, truth)
            && (forall k :: k in extras - truth ==> KbNode(kb, k) in resident)
  {
    hide Healed, IsOrder, AllAgree, Representable, OwnKeyed, Report, Extra;
    if !Representable(dec, docs, kb, truth) {
      var rows, order := UnhealedWitness(dec, docs, kb, truth, resident);
      CleanExactly(dec, docs, kb, Healed(dec, docs, kb, rows, truth, order, resident), truth, order);
      assert ListIds(rows) <= truth + extras;
    } else if k :| k in extras - truth && KbNode(kb, k) !in resident {
      var order := OrderOf(truth);
      StrayRowStays(dec, docs, kb, truth, order, resident, k);
      CleanExactly(dec, docs, kb, Healed(dec, docs, kb, OneRow(k), truth, order, resident), truth, order);
      assert ListIds(OneRow(k)) <= truth + extras;
    } else {
      NamedIfRepresentable(dec, docs, kb, truth);
      forall rows, first, second |
        OwnKeyed(rows) && ListIds(rows) <= truth + extras && IsOrder(first, truth) && IsOrder(second, truth)
        ensures Clean(Report(dec, docs, kb, Healed(dec, docs, kb, rows, truth, first, resident), truth, second, true))
      {
        RepresentableAgrees(dec, docs, kb, rows, truth, first, resident);
        HealedExtra(dec, docs, kb, rows, truth, first, resident);
        NoStrays(rows, truth, extras, kb, resident);
        CleanExactly(dec, docs, kb, Healed(dec, docs, kb, rows, truth, first, resident), truth, second);
      }
    }
  }

  lemma StrayRowStays(dec: Decoders, docs: Docs, kb: Id, truth: set<Id>, order: seq<Id>, resident: set<DocName>, k: Id)
    requires IsOrder(order, truth) && truth != {} && Representable(dec, docs, kb, truth)
    requires k !in truth && KbNode(kb, k) !in resident
    ensures OwnKeyed(OneRow(k))
    ensures k in Extra(Healed(dec, docs, kb, OneRow(k), truth, order, resident), truth)
  {
    hide Healed, IsOrder, Representable;
    NamedIfRepresentable(dec, docs, kb, truth);
    HealedExtra(dec, docs, kb, OneRow(k), truth, order, resident);
    assert k in Extra(OneRow(k), truth);
  }

  lemma NoStrays(rows: Rows, truth: set<Id>, extras: set<Id>, kb: Id, resident: set<DocName>)
    requires ListIds(rows) <= truth + extras && forall k :: k in extras - truth ==> KbNode(kb, k) in resident
    ensures (set k | k in Extra(rows, truth) && KbNode(kb, k) !in resident) == {}
  {
    forall k | k in Extra(rows, truth) ensures KbNode(kb, k) in resident {
      assert k in extras - truth;
    }
  }

  /**
   What an immediate second pass reports when the listed documents carry their own ids: as
   missing, the nodes that derive a blank row; as differing, the other nodes whose row is
   not showable; as extra, the unlisted rows with no resident document.
   */
  lemma SecondPass(dec: Decoders, docs: Docs, kb: Id, rows: Rows, truth: set<Id>, first: seq<Id>, second: seq<Id>, resident: set<DocName>)
    requires truth != {} && IsOrder(first, truth) && IsOrder(second, truth) && SelfNamed(dec, docs, kb, truth)
    ensures Report(dec, docs, kb, Healed(dec, docs, kb, rows, truth, first, resident), truth, second, true)
         == DriftReport(
              set n | n in truth && DerivedRow(dec, docs, kb, n).Some? && Blank(DerivedRow(dec, docs, kb, n).value),
              set n | n in truth && DerivedRow(dec, docs, kb, n).Some? && !Blank(DerivedRow(dec, docs, kb, n).value)
                      && !Showable(DerivedRow(dec, docs, kb, n).value),
              set k | k in Extra(rows, truth) && KbNode(kb, k) !in resident)
  {
    hide Healed, IsOrder, SelfNamed, Compare, FieldsDiffer, Expected, Drifted;
    var healed := Healed(dec, docs, kb, rows, truth, first, resident);
    OrderVisits(second, truth);
    HealSelfNamedOrder(dec, docs, kb, healed, truth, second);
    forall n | n in truth && DerivedRow(dec, docs, kb, n).Some?
      ensures IsMissing(healed, n) <==> Blank(DerivedRow(dec, docs, kb, n).value)
      ensures var row := DerivedRow(dec, docs, kb, n).value;
              IsDiffering(healed, n, row) <==> !Blank(row) && !Showable(row)
    {
      HealedAt(dec, docs, kb, rows, truth, first, resident, n);
      HealedShows(rows, healed, n, DerivedRow(dec, docs, kb, n).value);
    }
    HealedExtra(dec, docs, kb, rows, truth, first, resident);
    HealedSelfNamed(dec, docs, kb, healed, truth, second, resident);
  }

  lemma HealSelfNamedOrder(dec: Decoders, docs: Docs, kb: Id, rows: Rows, truth: set<Id>, order: seq<Id>)
    requires IsOrder(order, truth) && SelfNamed(dec, docs, kb, truth)
    ensures var p := Compare(dec, docs, kb, rows, order, true);
            && p.missing == Missing(dec, docs, kb, rows, truth)
            && p.differing == Differing(dec, docs, kb, rows, truth)
            && p.rows == rows + Expected(dec, docs, kb, Drifted(dec, docs, kb, rows, truth))
  {
    hide Compare, SelfNamed, Missing, Differing, Expected, Drifted;
    OrderVisits(order, truth);
    HealSelfNamed(dec, docs, kb, rows, order);
  }

  lemma HealedShows(rows: Rows, healed: Rows, n: Id, expected: Node)
    requires RowAt(healed, n) == if Agrees(rows, n, expected) then RowAt(rows, n) else Some(expected)
    ensures IsMissing(healed, n) <==> Blank(expected)
    ensures IsDiffering(healed, n, expected) <==> !Blank(expected) && !Showable(expected)
  {
  }

  /** An empty manifest heals nothing and reports nothing, whatever rows there are. */
  lemma EmptyManifestHealsNothing(dec: Decoders, docs: Docs, kb: Id, rows: Rows, resident: set<DocName>, order: seq<Id>)
    requires IsOrder(order, {})
    ensures Healed(dec, docs, kb, rows, {}, order, resident) == rows
    ensures Clean(Report(dec, docs, kb, rows, {}, order, true))
  {
    HeadVisited(order);
    assert rows - {} == rows;
  }

  lemma HeadVisited(order: seq<Id>)
    ensures order == [] || order[0] in order
  {
  }
}
