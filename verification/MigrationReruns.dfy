/**
 A migration whose calls may fail, then the daemon serving, then a second migration that
 meets no failure. While the daemon serves, clients edit scoped documents, and idle
 eviction can delete what is left under legacy names, which are not durable. What the
 second run makes of a node depends on what it finds under the legacy name.
 */
module MigrationReruns {
  import opened Basics
  import opened DocNames
  import opened Storage
  import opened DocStores
  import opened StoreViews
  import opened Migrations

  function ContentAt(docs: Docs, d: DocName): Doc {
    if d in docs then docs[d] else {}
  }

  // ---- The serving phase ----

  /** A legacy document was idle-evicted: whether its compaction succeeded, and how its delete ended. */
  datatype Eviction = Eviction(saved: bool, how: Deletion)

  type Evictions = map<Id, Eviction>

  /** What an eviction leaves of a document whose log alone holds `rest`. */
  function AfterEviction(doc: Doc, rest: Option<Doc>, e: Eviction): Option<Doc> {
    match e.how
    case Refused => Some(doc)
    case Deleted => None
    case Torn => if e.saved then None else rest
  }

  /** What is under a legacy name after the serving phase. */
  function LegacyAfter(docs: Docs, remains: Docs, n: Id, evictions: Evictions): Option<Doc> {
    if Legacy(n) !in docs then None
    else if n !in evictions then Some(docs[Legacy(n)])
    else AfterEviction(docs[Legacy(n)], if Legacy(n) in remains then Some(remains[Legacy(n)]) else None, evictions[n])
  }

  predicate Edits(writes: Docs) {
    forall d :: d in writes ==> d.KbNode?
  }

  /** The stored documents after the serving phase. */
  function Served(docs: Docs, remains: Docs, evictions: Evictions, writes: Docs): Docs {
    map d | d in docs.Keys + writes.Keys && (d.Legacy? ==> LegacyAfter(docs, remains, d.node, evictions).Some?) ::
      if d.Legacy? then LegacyAfter(docs, remains, d.node, evictions).value
      else ContentAt(docs, d) + ContentAt(writes, d)
  }

  /** The document store's idle eviction is such an eviction of every legacy document it picks. */
  lemma EvictionIsIdle(config: Config, s: State, op: Operation, out: Outcome, s': State, n: Id)
    requires Sound(s) && op.Evict? && Step(config, s, op, out, s')
    requires Legacy(n) in out.evicted && Legacy(n) in View(s.disk)
    ensures var d := Legacy(n);
            var e := Eviction(d in out.saved, op.deletes(d));
            LegacyAfter(View(s.disk), Remains(s.disk), n, map[n := e])
            == if d in View(s'.disk) then Some(View(s'.disk)[d]) else None
  {
    hide Disk.At, View, Remains, Sound, Disk.Wf;
    var d := Legacy(n);
    var f := s.disk.At(d);
    DiskShows(s.disk, d);
    DiskShows(s'.disk, d);
    assert !Durable(d);
    var saved := HappenAll(SaveEvents(d, out.saved), f);
    HappenOne(Save, f);
    HappenOne(Clear, saved);
    HappenOne(Tear, saved);
  }

  // ---- The two runs ----

  ghost function RunOver(m: Manifests, remains: Docs, names: seq<DocName>, faults: FaultPlan): Docs {
    MoveAll(m.docs, remains, PlanOf(m, LegacyNodes(names)), faults)
  }

  /** The manifests as the second run finds them. */
  ghost function Later(m: Manifests, remains: Docs, names: seq<DocName>, faults: FaultPlan, evictions: Evictions, writes: Docs): Manifests {
    m.(docs := Served(RunOver(m, remains, names, faults), remains, evictions, writes))
  }

  function NoFaults(n: Id): MoveFaults {
    CLEAN
  }

  /** What the first run leaves under the legacy name of a planned node with the given content. */
  function LeftByMove(doc: Doc, rest: Option<Doc>, f: MoveFaults): Option<Doc> {
    if !Moved(f) then Some(doc) else AfterEviction(doc, rest, Eviction(false, f.remove))
  }

  /** What the second run finds there. */
  function LeftBehind(docs: Docs, remains: Docs, n: Id, f: MoveFaults, evictions: Evictions): Option<Doc>
    requires Legacy(n) in docs
  {
    var rest := if Legacy(n) in remains then Some(remains[Legacy(n)]) else None;
    match LeftByMove(docs[Legacy(n)], rest, f)
    case None => None
    case Some(doc) => if n in evictions then AfterEviction(doc, rest, evictions[n]) else Some(doc)
  }

  /** The first run leaves the node's whole content under its scoped name: it logged the copy, or it was there. */
  predicate ScopedWhole(docs: Docs, remains: Docs, n: Id, kb: Id, f: MoveFaults)
    requires Legacy(n) in docs
  {
    || (!f.read && !f.share.append)
    || (var kept := if f.read then docs else DeleteFrom(docs, remains, KbNode(kb, n), f.share.delete);
        KbNode(kb, n) in kept && docs[Legacy(n)] <= kept[KbNode(kb, n)])
  }

  /** A planned node ends the first run as its own move leaves it. */
  lemma FirstRunAt(m: Manifests, remains: Docs, names: seq<DocName>, faults: FaultPlan, n: Id, kb: Id)
    requires Lists(names, m.docs) && Legacy(n) in m.docs && m.Claimants(n) == {kb}
    ensures var first := RunOver(m, remains, names, faults);
            SameAt(Move(m.docs, remains, n, kb, faults(n)), first, Legacy(n))
            && SameAt(Move(m.docs, remains, n, kb, faults(n)), first, KbNode(kb, n))
  {
    hide MoveAll, PlanOf, LegacyNodes, Manifests.Claimants, Move;
    var legacy := LegacyNodes(names);
    var plan := PlanOf(m, legacy);
    LegacyExact(names);
    PlanExact(m, legacy);
    PlanDistinct(m, legacy);
    assert (n, kb) in plan;
    var k :| 0 <= k < |plan| && plan[k] == (n, kb);
    MovesEachNode(m.docs, remains, plan, faults, k);
  }

  lemma MoveLeaves(docs: Docs, remains: Docs, n: Id, kb: Id, f: MoveFaults)
    requires Legacy(n) in docs
    ensures var after, d := Move(docs, remains, n, kb, f), KbNode(kb, n);
            var rest := if Legacy(n) in remains then Some(remains[Legacy(n)]) else None;
            && LeftByMove(docs[Legacy(n)], rest, f) == (if Legacy(n) in after then Some(after[Legacy(n)]) else None)
            && (ScopedWhole(docs, remains, n, kb, f) <==> d in after && docs[Legacy(n)] <= after[d])
  {
  }

  /** What the second run finds under the legacy name of a planned node, from the inputs alone. */
  lemma FoundAt(m: Manifests, remains: Docs, names: seq<DocName>, faults: FaultPlan, n: Id, kb: Id, evictions: Evictions)
    requires Lists(names, m.docs) && Legacy(n) in m.docs && m.Claimants(n) == {kb}
    ensures var first, d := RunOver(m, remains, names, faults), KbNode(kb, n);
            && LegacyAfter(first, remains, n, evictions) == LeftBehind(m.docs, remains, n, faults(n), evictions)
            && (ScopedWhole(m.docs, remains, n, kb, faults(n)) <==> d in first && m.docs[Legacy(n)] <= first[d])
  {
    hide RunOver, Move, ScopedWhole, LeftByMove;
    FirstRunAt(m, remains, names, faults, n, kb);
    MoveLeaves(m.docs, remains, n, kb, faults(n));
  }

  /** Neither the moves nor the serving phase touch a manifest. */
  lemma LaterClaims(m: Manifests, remains: Docs, names: seq<DocName>, faults: FaultPlan, evictions: Evictions, writes: Docs)
    requires Edits(writes)
    ensures forall n :: Later(m, remains, names, faults, evictions, writes).Claimants(n) == m.Claimants(n)
  {
    hide MoveAll, PlanOf, LegacyNodes;
    var m' := Later(m, remains, names, faults, evictions, writes);
    var plan := PlanOf(m, LegacyNodes(names));
    forall d: DocName | d.KbCollection? ensures SameAt(m.docs, m'.docs, d) {
      assert !InPlan(plan, d);
      MovesTouchOnlyPlan(m.docs, remains, plan, faults, d);
    }
    ClaimsOfCollections(m, m');
  }

  /** A clean run moves a claimed node that is under its legacy name. */
  lemma RerunMoves(m: Manifests, remains: Docs, names: seq<DocName>, n: Id, kb: Id)
    requires Lists(names, m.docs) && m.Claimants(n) == {kb} && Legacy(n) in m.docs
    ensures var last := RunOver(m, remains, names, NoFaults);
            KbNode(kb, n) in last && last[KbNode(kb, n)] == m.docs[Legacy(n)]
  {
    hide MoveAll, PlanOf, LegacyNodes, Manifests.Claimants;
    var plan := PlanOf(m, LegacyNodes(names));
    LegacyExact(names);
    PlanExact(m, LegacyNodes(names));
    PlanDistinct(m, LegacyNodes(names));
    CleanMoves(m.docs, remains, plan, NoFaults);
    assert (n, kb) in plan;
    var k :| 0 <= k < |plan| && plan[k] == (n, kb);
  }

  /** A run leaves alone the names of a node it does not plan to move. */
  lemma RunKeeps(m: Manifests, remains: Docs, names: seq<DocName>, faults: FaultPlan, n: Id, d: DocName)
    requires Lists(names, m.docs) && (Legacy(n) !in m.docs || |m.Claimants(n)| != 1)
    requires d == Legacy(n) || (d.KbNode? && d.node == n)
    ensures SameAt(m.docs, RunOver(m, remains, names, faults), d)
  {
    hide MoveAll, PlanOf, LegacyNodes, Manifests.Claimants;
    var plan := PlanOf(m, LegacyNodes(names));
    LegacyExact(names);
    PlanExact(m, LegacyNodes(names));
    forall k | 0 <= k < |plan| ensures plan[k].0 != n {
      assert plan[k] in plan;
      var (p, kb) := plan[k];
      assert m.Claimants(p) == {kb};
    }
    assert !InPlan(plan, d);
    MovesTouchOnlyPlan(m.docs, remains, plan, faults, d);
  }

  /**
   What the second run makes of a node the first one planned: it replaces the scoped copy
   by what it finds under the legacy name, and otherwise leaves the copy with its edits.
   */
  lemma SecondRunAt(m: Manifests, remains: Docs, names: seq<DocName>, faults: FaultPlan, n: Id, kb: Id,
                    evictions: Evictions, writes: Docs, remains': Docs, names': seq<DocName>)
    requires Lists(names, m.docs) && Legacy(n) in m.docs && m.Claimants(n) == {kb}
    requires Edits(writes) && Lists(names', Later(m, remains, names, faults, evictions, writes).docs)
    ensures var d, first := KbNode(kb, n), RunOver(m, remains, names, faults);
            var last := RunOver(Later(m, remains, names, faults, evictions, writes), remains', names', NoFaults);
            match LeftBehind(m.docs, remains, n, faults(n), evictions)
            case Some(doc) => d in last && last[d] == doc
            case None => (d in last <==> d in first || d in writes) && ContentAt(last, d) == ContentAt(first, d) + ContentAt(writes, d)
  {
    hide RunOver, Manifests.Claimants, LegacyAfter, LeftBehind;
    FoundAt(m, remains, names, faults, n, kb, evictions);
    LaterClaims(m, remains, names, faults, evictions, writes);
    var m' := Later(m, remains, names, faults, evictions, writes);
    AbsentStays(RunOver(m, remains, names, faults), remains, evictions, n);
    if Legacy(n) in m'.docs {
      RerunMoves(m', remains', names', n, kb);
    } else {
      RunKeeps(m', remains', names', NoFaults, n, KbNode(kb, n));
    }
  }

  lemma AbsentStays(docs: Docs, remains: Docs, evictions: Evictions, n: Id)
    ensures LegacyAfter(docs, remains, n, evictions).Some? ==> Legacy(n) in docs
  {
  }

  /** After the second run the scoped document holds the old content and every edit to it. */
  ghost predicate NothingLost(m: Manifests, remains: Docs, names: seq<DocName>, faults: FaultPlan, n: Id, kb: Id,
                              evictions: Evictions, writes: Docs, remains': Docs, names': seq<DocName>)
    requires Legacy(n) in m.docs
  {
    var d := KbNode(kb, n);
    var last := RunOver(Later(m, remains, names, faults, evictions, writes), remains', names', NoFaults);
    && d in last
    && m.docs[Legacy(n)] <= last[d]
    && (d in writes ==> writes[d] <= last[d])
  }

  /**
   No content of a planned node and no edit to its scoped copy is lost to the next run,
   whatever the edits, if and only if the scoped copy was whole after the first run and the
   next one finds nothing under the legacy name. So a legacy delete that fails costs the
   edits made in between, unless an eviction happens to finish it.
   */
  lemma EditsSurviveExactly(m: Manifests, remains: Docs, names: seq<DocName>, faults: FaultPlan, n: Id, kb: Id, evictions: Evictions)
    requires Lists(names, m.docs) && Legacy(n) in m.docs && m.Claimants(n) == {kb}
    ensures (forall writes, remains', names' ::
               Edits(writes) && Lists(names', Later(m, remains, names, faults, evictions, writes).docs) ==>
                 NothingLost(m, remains, names, faults, n, kb, evictions, writes, remains', names'))
       <==> LeftBehind(m.docs, remains, n, faults(n), evictions).None? && ScopedWhole(m.docs, remains, n, kb, faults(n))
  {
    hide RunOver, Later, Lists, LeftBehind, ScopedWhole;
    FoundAt(m, remains, names, faults, n, kb, evictions);
    var left := LeftBehind(m.docs, remains, n, faults(n), evictions);
    if left.Some? {
      var op := Unused(left.value);
      var writes := map[KbNode(kb, n) := {op}];
      var names' := Enumerate(Later(m, remains, names, faults, evictions, writes).docs);
      SecondRunAt(m, remains, names, faults, n, kb, evictions, writes, map[], names');
      assert op in writes[KbNode(kb, n)];
      assert !NothingLost(m, remains, names, faults, n, kb, evictions, writes, map[], names');
    } else if !ScopedWhole(m.docs, remains, n, kb, faults(n)) {
      var names' := Enumerate(Later(m, remains, names, faults, evictions, map[]).docs);
      SecondRunAt(m, remains, names, faults, n, kb, evictions, map[], map[], names');
      assert !NothingLost(m, remains, names, faults, n, kb, evictions, map[], map[], names');
    } else {
      forall writes, remains', names' | Edits(writes) && Lists(names', Later(m, remains, names, faults, evictions, writes).docs)
        ensures NothingLost(m, remains, names, faults, n, kb, evictions, writes, remains', names')
      {
        SecondRunAt(m, remains, names, faults, n, kb, evictions, writes, remains', names');
      }
    }
  }

  /**
   Without edits, and without any crash, the next run ends with a planned node's whole
   content if and only if what it finds under the legacy name is whole, or it finds nothing
   there and the scoped copy was whole after the first run.
   */
  lemma ContentSurvivesExactly(m: Manifests, remains: Docs, names: seq<DocName>, faults: FaultPlan, n: Id, kb: Id,
                               evictions: Evictions, remains': Docs, names': seq<DocName>)
    requires Lists(names, m.docs) && Legacy(n) in m.docs && m.Claimants(n) == {kb}
    requires Lists(names', Later(m, remains, names, faults, evictions, map[]).docs)
    ensures NothingLost(m, remains, names, faults, n, kb, evictions, map[], remains', names')
       <==> match LeftBehind(m.docs, remains, n, faults(n), evictions)
            case Some(doc) => m.docs[Legacy(n)] <= doc
            case None => ScopedWhole(m.docs, remains, n, kb, faults(n))
  {
    hide RunOver, Later, Lists, LeftBehind, ScopedWhole;
    FoundAt(m, remains, names, faults, n, kb, evictions);
    SecondRunAt(m, remains, names, faults, n, kb, evictions, map[], remains', names');
  }

  /** One way to lose it: the copy was made, and the legacy delete then failed between its two statements. */
  lemma TornRemoveLoses(m: Manifests, remains: Docs, names: seq<DocName>, faults: FaultPlan, n: Id, kb: Id,
                        evictions: Evictions, remains': Docs, names': seq<DocName>)
    requires Lists(names, m.docs) && Legacy(n) in m.docs && m.Claimants(n) == {kb}
    requires Lists(names', Later(m, remains, names, faults, evictions, map[]).docs)
    requires Moved(faults(n)) && faults(n).remove.Torn? && n !in evictions
    requires Legacy(n) in remains && !(m.docs[Legacy(n)] <= remains[Legacy(n)])
    ensures !NothingLost(m, remains, names, faults, n, kb, evictions, map[], remains', names')
  {
    hide NothingLost, Later, Lists;
    ContentSurvivesExactly(m, remains, names, faults, n, kb, evictions, remains', names');
  }

  /** Another: the node could not be read, stayed behind, and was idle-evicted while the daemon served. */
  lemma EvictionLoses(m: Manifests, remains: Docs, names: seq<DocName>, faults: FaultPlan, n: Id, kb: Id,
                      evictions: Evictions, remains': Docs, names': seq<DocName>)
    requires Lists(names, m.docs) && Legacy(n) in m.docs && m.Claimants(n) == {kb}
    requires Lists(names', Later(m, remains, names, faults, evictions, map[]).docs)
    requires faults(n).read && KbNode(kb, n) !in m.docs
    requires n in evictions && evictions[n].how.Deleted?
    ensures !NothingLost(m, remains, names, faults, n, kb, evictions, map[], remains', names')
  {
    hide NothingLost, Later, Lists;
    ContentSurvivesExactly(m, remains, names, faults, n, kb, evictions, remains', names');
  }

  // ---- Documents no run moves ----

  /** The eviction, if there was one, left the document as it was. */
  predicate Unharmed(docs: Docs, remains: Docs, n: Id, evictions: Evictions)
    requires Legacy(n) in docs
  {
    n in evictions ==>
      || evictions[n].how.Refused?
      || (evictions[n].how.Torn? && !evictions[n].saved && Legacy(n) in remains && remains[Legacy(n)] == docs[Legacy(n)])
  }

  /**
   A legacy document a run left in place is whole for the next run if and only if no idle
   eviction harmed it meanwhile: it was not evicted, or its delete was refused, or was torn
   over an uncompacted document whose log rows hold everything.
   */
  lemma LeftInPlaceExactly(docs: Docs, remains: Docs, n: Id, evictions: Evictions)
    requires Legacy(n) in docs
    ensures LegacyAfter(docs, remains, n, evictions) == Some(docs[Legacy(n)]) <==> Unharmed(docs, remains, n, evictions)
  {
  }

  /** An unclaimed legacy document is kept through both runs if and only if no idle eviction harmed it in between. */
  lemma OrphanKeptExactly(m: Manifests, remains: Docs, names: seq<DocName>, faults: FaultPlan, n: Id,
                          evictions: Evictions, writes: Docs, remains': Docs, names': seq<DocName>)
    requires Lists(names, m.docs) && Legacy(n) in m.docs && m.Claimants(n) == {}
    requires Edits(writes) && Lists(names', Later(m, remains, names, faults, evictions, writes).docs)
    ensures SameAt(m.docs, RunOver(Later(m, remains, names, faults, evictions, writes), remains', names', NoFaults), Legacy(n))
       <==> Unharmed(m.docs, remains, n, evictions)
  {
    hide RunOver, Manifests.Claimants, Lists;
    var first := RunOver(m, remains, names, faults);
    RunKeeps(m, remains, names, faults, n, Legacy(n));
    LaterClaims(m, remains, names, faults, evictions, writes);
    var m' := Later(m, remains, names, faults, evictions, writes);
    assert m'.Claimants(n) == {};
    RunKeeps(m', remains', names', NoFaults, n, Legacy(n));
    LeftInPlaceExactly(first, remains, n, evictions);
  }

  lemma Unused(doc: Doc) returns (op: Op)
    ensures op !in doc
  {
    var rest := doc;
    op := 0;
    while rest != {}
      invariant rest <= doc
      invariant forall o :: o in doc && o !in rest ==> o < op
    {
      var o :| o in rest;
      rest := rest - {o};
      op := if o < op then op else o + 1;
    }
  }

  lemma Enumerate(docs: Docs) returns (names: seq<DocName>)
    ensures Lists(names, docs)
  {
    var rest := docs.Keys;
    names := [];
    while rest != {}
      invariant rest <= docs.Keys
      invariant forall d :: d in names <==> d in docs && d !in rest
      invariant forall i, j :: 0 <= i < j < |names| ==> names[i] != names[j]
    {
      var d :| d in rest;
      rest, names := rest - {d}, names + [d];
    }
  }
}
