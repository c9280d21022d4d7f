/**
 Migrating legacy node documents to per-KB addresses: who owns each one, what moves, and
 what a run leaves behind. `MigrationCrashes` takes the moves apart against crashes.
 */
module Migrations {
  import opened Basics
  import opened DocNames
  import opened Storage
  import opened DocStores
  import opened StoreViews

  /**
   The manifests a run can consult: how a collection lists its nodes, the stored documents,
   and the names whose reads fail.
   */
  datatype Manifests = Manifests(list: Doc -> Option<seq<Id>>, docs: Docs, unreadable: set<DocName>)
  {
    predicate Readable(d: DocName) {
      d in docs && d.KbCollection? && d !in unreadable && list(docs[d]).Some?
    }

    /** The KBs whose readable manifest lists `n`. */
    function Claimants(n: Id): set<Id> {
      set d | d in docs && Readable(d) && n in list(docs[d]).value :: d.kb
    }
  }

  datatype Migration = NothingToDo | Migrated(migrated: nat, orphaned: nat)

  /** A node claimed by more than one KB, with its claimants. */
  datatype Ambiguous = Ambiguous(n: Id, kbs: set<Id>)

  // ---- The plan ----

  function LegacyNodes(names: seq<DocName>): seq<Id> {
    if names == [] then []
    else
      var rest := LegacyNodes(names[..|names| - 1]);
      var last := names[|names| - 1];
      if last.Legacy? then rest + [last.node] else rest
  }

  ghost function Sole(s: set<Id>): Id
    requires |s| == 1
  {
    var x :| x in s; x
  }

  /** The moves: each legacy node with exactly one claimant, to that claimant. */
  ghost function PlanOf(m: Manifests, legacy: seq<Id>): seq<(Id, Id)> {
    if legacy == [] then []
    else
      var rest := PlanOf(m, legacy[..|legacy| - 1]);
      var n := legacy[|legacy| - 1];
      if |m.Claimants(n)| == 1 then rest + [(n, Sole(m.Claimants(n)))] else rest
  }

  function AmbiguousOf(m: Manifests, legacy: seq<Id>): seq<Ambiguous> {
    if legacy == [] then []
    else
      var rest := AmbiguousOf(m, legacy[..|legacy| - 1]);
      var n := legacy[|legacy| - 1];
      if |m.Claimants(n)| > 1 then rest + [Ambiguous(n, m.Claimants(n))] else rest
  }

  function OrphanCount(m: Manifests, legacy: seq<Id>): nat {
    if legacy == [] then 0
    else OrphanCount(m, legacy[..|legacy| - 1]) + (if m.Claimants(legacy[|legacy| - 1]) == {} then 1 else 0)
  }

  function Elems(s: seq<Id>): set<Id> {
    set x | x in s
  }

  function ClaimsIn(owners: map<Id, seq<Id>>, n: Id): set<Id> {
    if n in owners then Elems(owners[n]) else {}
  }

  /** The KBs among the first `names` whose readable manifest lists `n`. */
  function ClaimantsAmong(m: Manifests, names: seq<DocName>, n: Id): set<Id> {
    set d | d in names && m.Readable(d) && n in m.list(m.docs[d]).value :: d.kb
  }

  /** Read every collection and record, for each node, the KBs that list it. */
  method CollectOwners(store: DocStore, names: seq<DocName>, m: Manifests, now: nat)
    returns (owners: map<Id, seq<Id>>)
    requires store.Valid() && m.docs == View(store.disk)
    requires forall d :: d in names ==> d in m.docs && (d in m.unreadable ==> d !in store.docs)
    modifies store`docs
    ensures store.Valid()
    ensures forall d :: d in store.docs ==> d in old(store.docs) || d.KbCollection?
    ensures forall n :: ClaimsIn(owners, n) == ClaimantsAmong(m, names, n)
    ensures forall n :: n in owners ==> owners[n] != []
  {
    hide Step, Sound, View, Disk.Content;
    ViewIsExact(store.disk);
    owners := map[];
    var i := 0;
    while i < |names|
      invariant 0 <= i <= |names|
      invariant store.Valid()
      invariant forall d :: d in names && d in m.unreadable ==> d !in store.docs
      invariant forall d :: d in store.docs ==> d in old(store.docs) || d.KbCollection?
      invariant forall n :: ClaimsIn(owners, n) == ClaimantsAmong(m, names[..i], n)
      invariant forall n :: n in owners ==> owners[n] != []
    {
      var name := names[i];
      ghost var was := owners;
      if name.KbCollection? {
        ghost var before := store.Now();
        var out := store.EncodeState(name, true, name in m.unreadable, now);
        AuthorizedRead(store.config, before, Read(name, true, name in m.unreadable, now), out, store.Now());
        if out.reply.Content? {
          var listed := m.list(out.reply.doc);
          if listed.Some? {
            owners := AddClaims(owners, listed.value, name.kb);
          }
        }
      }
      forall n ensures ClaimsIn(owners, n) == ClaimantsAmong(m, names[..i + 1], n) {
        ClaimStep(m, names, i, n);
      }
      i := i + 1;
    }
    assert names[..i] == names;
  }

  method AddClaims(owners: map<Id, seq<Id>>, nodes: seq<Id>, kb: Id) returns (owners': map<Id, seq<Id>>)
    requires forall n :: n in owners ==> owners[n] != []
    ensures forall n :: ClaimsIn(owners', n) == ClaimsIn(owners, n) + (if n in nodes then {kb} else {})
    ensures forall n :: n in owners' ==> owners'[n] != []
  {
    owners' := owners;
    var i := 0;
    while i < |nodes|
      invariant 0 <= i <= |nodes|
      invariant forall n :: ClaimsIn(owners', n) == ClaimsIn(owners, n) + (if n in nodes[..i] then {kb} else {})
      invariant forall n :: n in owners' ==> owners'[n] != []
    {
      ghost var was := owners';
      var n := nodes[i];
      owners' := owners'[n := (if n in owners' then owners'[n] else []) + [kb]];
      assert ClaimsIn(owners', n) == ClaimsIn(was, n) + {kb};
      assert forall k :: k != n ==> ClaimsIn(owners', k) == ClaimsIn(was, k);
      assert nodes[..i + 1] == nodes[..i] + [n];
      i := i + 1;
    }
    assert nodes[..i] == nodes;
  }

  lemma ClaimStep(m: Manifests, names: seq<DocName>, i: nat, n: Id)
    requires i < |names|
    ensures ClaimantsAmong(m, names[..i + 1], n)
         == ClaimantsAmong(m, names[..i], n)
            + (if m.Readable(names[i]) && n in m.list(m.docs[names[i]]).value then {names[i].kb} else {})
  {
    assert names[..i + 1] == names[..i] + [names[i]];
  }

  /** Sort the legacy nodes into moves, ambiguities and orphans. */
  method BuildPlan(owners: map<Id, seq<Id>>, legacy: seq<Id>, ghost m: Manifests)
    returns (plan: seq<(Id, Id)>, ambiguous: seq<Ambiguous>, orphaned: nat)
    requires forall n :: ClaimsIn(owners, n) == m.Claimants(n)
    requires forall n :: n in owners ==> owners[n] != []
    ensures plan == PlanOf(m, legacy) && ambiguous == AmbiguousOf(m, legacy) && orphaned == OrphanCount(m, legacy)
  {
    plan, ambiguous, orphaned := [], [], 0;
    var i := 0;
    while i < |legacy|
      invariant 0 <= i <= |legacy|
      invariant plan == PlanOf(m, legacy[..i])
      invariant ambiguous == AmbiguousOf(m, legacy[..i])
      invariant orphaned == OrphanCount(m, legacy[..i])
    {
      var n := legacy[i];
      assert legacy[..i + 1][..i] == legacy[..i];
      assert ClaimsIn(owners, n) == m.Claimants(n);
      if n in owners {
        var kbs := Elems(owners[n]);
        assert owners[n][0] in kbs;
        if |kbs| > 1 {
          ambiguous := ambiguous + [Ambiguous(n, kbs)];
        } else {
          var kb := owners[n][0];
          SoleIs(kbs, kb);
          plan := plan + [(n, kb)];
        }
      } else {
        orphaned := orphaned + 1;
      }
      i := i + 1;
    }
    assert legacy[..i] == legacy;
  }

  lemma SoleIs(s: set<Id>, x: Id)
    requires x in s && |s| <= 1
    ensures |s| == 1 && Sole(s) == x
  {
    SubsetSize({x}, s);
  }

  // ---- The moves ----

  /** Which storage calls of one move fail, and how the delete of the legacy document ends. */
  datatype MoveFaults = MoveFaults(read: bool, share: Faults, remove: Deletion)

  type FaultPlan = Id -> MoveFaults

  const CLEAN := MoveFaults(false, NO_FAULTS, Deleted)

  /** The legacy document was read and its scoped copy written. */
  predicate Moved(f: MoveFaults) {
    !f.read && !f.share.append && !f.share.load
  }

  /** One move: read the legacy document, share it under the scoped name, delete it. */
  function Move(docs: Docs, remains: Docs, n: Id, kb: Id, f: MoveFaults): Docs {
    if f.read || Legacy(n) !in docs then docs
    else
      var shared := ShareInto(docs, remains, KbNode(kb, n), docs[Legacy(n)], f.share);
      if Moved(f) then DeleteFrom(shared, remains, Legacy(n), f.remove) else shared
  }

  function MoveAll(docs: Docs, remains: Docs, plan: seq<(Id, Id)>, faults: FaultPlan): Docs
    decreases |plan|
  {
    if plan == [] then docs
    else MoveAll(Move(docs, remains, plan[0].0, plan[0].1, faults(plan[0].0)), remains, plan[1..], faults)
  }

  function CountMoved(plan: seq<(Id, Id)>, faults: FaultPlan): nat {
    if plan == [] then 0
    else CountMoved(plan[..|plan| - 1], faults) + (if Moved(faults(plan[|plan| - 1].0)) then 1 else 0)
  }

  method MoveOne(store: DocStore, n: Id, kb: Id, f: MoveFaults, now: nat) returns (moved: bool)
    requires store.Valid() && store.disk.Exists(Legacy(n))
    requires f.read ==> Legacy(n) !in store.docs
    modifies store
    ensures store.Valid()
    ensures View(store.disk) == Move(View(old(store.disk)), Remains(old(store.disk)), n, kb, f)
    ensures forall x :: x != Legacy(n) && x != KbNode(kb, n) ==> store.disk.At(x) == old(store.disk).At(x)
    ensures store.docs.Keys <= old(store.docs).Keys + {Legacy(n), KbNode(kb, n)}
    ensures moved == Moved(f)
  {
    hide Step, Sound, View, Remains, ShareInto, DeleteFrom, Disk.Content, Disk.Exists, Disk.At;
    ViewIsExact(store.disk);
    ghost var s0 := store.Now();
    var got := store.EncodeState(Legacy(n), true, f.read, now);
    AuthorizedRead(store.config, s0, Read(Legacy(n), true, f.read, now), got, store.Now());
    if !got.reply.Content? {
      return false;
    }
    ghost var s1 := store.Now();
    var shared := store.ShareDoc(KbNode(kb, n), Ops(got.reply.doc), f.share, now);
    ShareView(store.config, s1, Share(KbNode(kb, n), Ops(got.reply.doc), f.share, now), shared, store.Now());
    if !shared.reply.Done? {
      return false;
    }
    ghost var s2 := store.Now();
    var gone := store.DeleteDoc(Legacy(n), f.remove);
    DeleteView(store.config, s2, Delete(Legacy(n), f.remove), gone, store.Now());
    SameRemains(s1.disk, s2.disk, Legacy(n));
    DeleteLocal(View(s2.disk), Remains(s1.disk), Remains(s2.disk), Legacy(n), f.remove);
    moved := true;
  }

  lemma SameRemains(a: Disk, b: Disk, d: DocName)
    requires a.At(d) == b.At(d)
    ensures SameAt(Remains(a), Remains(b), d)
  {
    hide Disk.At, Remains;
    RemainsIsExact(a);
    RemainsIsExact(b);
  }

  lemma DeleteLocal(docs: Docs, a: Docs, b: Docs, d: DocName, how: Deletion)
    requires SameAt(a, b, d)
    ensures DeleteFrom(docs, a, d, how) == DeleteFrom(docs, b, d, how)
  {
  }

  predicate SameAt(a: Docs, b: Docs, d: DocName) {
    (d in a <==> d in b) && (d in a ==> a[d] == b[d])
  }

  /** A move touches its own two names only. */
  lemma MoveTouchesOnly(docs: Docs, remains: Docs, n: Id, kb: Id, f: MoveFaults, d: DocName)
    requires d != Legacy(n) && d != KbNode(kb, n)
    ensures SameAt(docs, Move(docs, remains, n, kb, f), d)
  {
  }

  lemma ShareLocal(docs: Docs, docs': Docs, remains: Docs, d: DocName, ops: Doc, f: Faults)
    requires SameAt(docs, docs', d)
    ensures SameAt(ShareInto(docs, remains, d, ops, f), ShareInto(docs', remains, d, ops, f), d)
    ensures forall x :: x != d ==> SameAt(docs, ShareInto(docs, remains, d, ops, f), x)
    ensures forall x :: x != d ==> SameAt(docs', ShareInto(docs', remains, d, ops, f), x)
  {
  }

  /** A move depends on its own two names only. */
  lemma MoveLocal(docs: Docs, docs': Docs, remains: Docs, n: Id, kb: Id, f: MoveFaults)
    requires SameAt(docs, docs', Legacy(n)) && SameAt(docs, docs', KbNode(kb, n))
    ensures var after, after' := Move(docs, remains, n, kb, f), Move(docs', remains, n, kb, f);
            SameAt(after, after', Legacy(n)) && SameAt(after, after', KbNode(kb, n))
  {
    hide ShareInto;
    if Legacy(n) in docs && !f.read {
      var a := ShareInto(docs, remains, KbNode(kb, n), docs[Legacy(n)], f.share);
      var b := ShareInto(docs', remains, KbNode(kb, n), docs[Legacy(n)], f.share);
      ShareLocal(docs, docs', remains, KbNode(kb, n), docs[Legacy(n)], f.share);
      assert SameAt(docs, a, Legacy(n)) && SameAt(docs', b, Legacy(n));
    }
  }

  ghost predicate DistinctNodes(plan: seq<(Id, Id)>) {
    forall i, j :: 0 <= i < j < |plan| ==> plan[i].0 != plan[j].0
  }

  /** The moves from position `i` on find their two documents as the run found them. */
  ghost predicate Untouched(plan: seq<(Id, Id)>, i: nat, start: Disk, disk: Disk) {
    forall j :: i <= j < |plan| ==>
      && disk.At(Legacy(plan[j].0)) == start.At(Legacy(plan[j].0))
      && disk.At(KbNode(plan[j].1, plan[j].0)) == start.At(KbNode(plan[j].1, plan[j].0))
  }

  /** A legacy document whose read is to fail is not in memory. */
  predicate ReadsCanFail(plan: seq<(Id, Id)>, i: nat, docs: Resident, faults: FaultPlan) {
    forall j :: i <= j < |plan| && faults(plan[j].0).read ==> Legacy(plan[j].0) !in docs
  }

  lemma StillUntouched(plan: seq<(Id, Id)>, i: nat, start: Disk, before: Disk, after: Disk)
    requires i < |plan| && DistinctNodes(plan) && Untouched(plan, i, start, before)
    requires forall x :: x != Legacy(plan[i].0) && x != KbNode(plan[i].1, plan[i].0) ==> after.At(x) == before.At(x)
    ensures Untouched(plan, i + 1, start, after)
  {
    hide Disk.At;
  }

  method MovePlanned(store: DocStore, plan: seq<(Id, Id)>, faults: FaultPlan, now: nat) returns (migrated: nat)
    requires store.Valid() && DistinctNodes(plan)
    requires forall i :: 0 <= i < |plan| ==> store.disk.Exists(Legacy(plan[i].0))
    requires ReadsCanFail(plan, 0, store.docs, faults)
    modifies store
    ensures store.Valid()
    ensures View(store.disk) == MoveAll(View(old(store.disk)), Remains(old(store.disk)), plan, faults)
    ensures migrated == CountMoved(plan, faults)
  {
    hide Sound, View, Remains, Move, Moved, Disk.At, Disk.Exists, Untouched;
    migrated := 0;
    ghost var start := store.disk;
    var i := 0;
    assert plan[0..] == plan && Untouched(plan, 0, start, start) by {
      SameUntouched(plan, start);
    }
    while i < |plan|
      invariant 0 <= i <= |plan|
      invariant store.Valid() && Untouched(plan, i, start, store.disk) && ReadsCanFail(plan, i, store.docs, faults)
      invariant MoveAll(View(store.disk), Remains(start), plan[i..], faults) == MoveAll(View(start), Remains(start), plan, faults)
      invariant migrated == CountMoved(plan[..i], faults)
    {
      var (n, kb) := plan[i];
      ghost var before := store.disk;
      MoveFromStart(plan, i, start, before, faults(n));
      var moved := MoveOne(store, n, kb, faults(n), now);
      StillUntouched(plan, i, start, before, store.disk);
      if moved {
        migrated := migrated + 1;
      }
      assert plan[i..][1..] == plan[i + 1..] && plan[..i + 1][..i] == plan[..i];
      i := i + 1;
    }
    assert plan[i..] == [] && plan[..i] == plan;
  }

  lemma SameUntouched(plan: seq<(Id, Id)>, start: Disk)
    ensures Untouched(plan, 0, start, start)
  {
  }

  /** The next move finds its legacy document, and what its logs hold is as at the start. */
  lemma MoveFromStart(plan: seq<(Id, Id)>, i: nat, start: Disk, disk: Disk, f: MoveFaults)
    requires i < |plan| && Untouched(plan, i, start, disk)
    ensures disk.Exists(Legacy(plan[i].0)) == start.Exists(Legacy(plan[i].0))
    ensures Move(View(disk), Remains(disk), plan[i].0, plan[i].1, f) == Move(View(disk), Remains(start), plan[i].0, plan[i].1, f)
  {
    hide Move, View, Remains, Disk.At;
    PresentSame(start, disk, Legacy(plan[i].0));
    SameRemains(start, disk, Legacy(plan[i].0));
    SameRemains(start, disk, KbNode(plan[i].1, plan[i].0));
    SameMove(View(disk), Remains(start), Remains(disk), plan[i].0, plan[i].1, f);
  }

  lemma PresentSame(a: Disk, b: Disk, d: DocName)
    requires a.At(d) == b.At(d)
    ensures a.Exists(d) == b.Exists(d)
  {
    assert a.At(d).present == b.At(d).present;
  }

  lemma SameMove(docs: Docs, remains: Docs, remains': Docs, n: Id, kb: Id, f: MoveFaults)
    requires SameAt(remains, remains', Legacy(n)) && SameAt(remains, remains', KbNode(kb, n))
    ensures Move(docs, remains, n, kb, f) == Move(docs, remains', n, kb, f)
  {
    if Legacy(n) in docs && !f.read {
      DeleteLocal(docs, remains, remains', KbNode(kb, n), f.share.delete);
      var shared := ShareInto(docs, remains, KbNode(kb, n), docs[Legacy(n)], f.share);
      DeleteLocal(shared, remains, remains', Legacy(n), f.remove);
    }
  }

  /**
   One migration run. It does nothing when documents cannot be listed or none is legacy,
   changes no document when any legacy node is ambiguous, and otherwise makes exactly the
   planned moves. The listing may come back short; a collection it misses is one the run
   cannot read. A read can fail only for a document that is not in memory.
   */
  method MigrateLegacyNodeDocs(store: DocStore, names: seq<DocName>, listFails: bool, m: Manifests, faults: FaultPlan, now: nat)
    returns (r: Result<Migration, seq<Ambiguous>>)
    requires store.Valid() && m.docs == View(store.disk)
    requires forall d :: d in names ==> d in m.docs && (d in m.unreadable ==> d !in store.docs)
    requires forall d :: d in m.docs && d.KbCollection? && d !in names ==> d in m.unreadable
    requires forall i, j :: 0 <= i < j < |names| ==> names[i] != names[j]
    requires forall n :: faults(n).read ==> Legacy(n) !in store.docs
    modifies store
    ensures store.Valid()
    ensures var legacy := LegacyNodes(names);
            if listFails || legacy == [] then r == Ok(NothingToDo) && View(store.disk) == m.docs
            else if AmbiguousOf(m, legacy) != [] then r == Err(AmbiguousOf(m, legacy)) && View(store.disk) == m.docs
            else
              && r == Ok(Migrated(CountMoved(PlanOf(m, legacy), faults), OrphanCount(m, legacy)))
              && View(store.disk) == MoveAll(m.docs, Remains(old(store.disk)), PlanOf(m, legacy), faults)
  {
    hide Sound, View, Remains, Move, Disk.Exists;
    if listFails {
      return Ok(NothingToDo);
    }
    var legacy := LegacyNodes(names);
    if legacy == [] {
      return Ok(NothingToDo);
    }
    var owners := CollectOwners(store, names, m, now);
    forall n ensures ClaimsIn(owners, n) == m.Claimants(n) {
      assert ClaimantsAmong(m, names, n) == m.Claimants(n);
    }
    var plan, ambiguous, orphaned := BuildPlan(owners, legacy, m);
    if ambiguous != [] {
      return Err(ambiguous);
    }
    LegacyExact(names);
    PlanExact(m, legacy);
    PlanDistinct(m, legacy);
    ViewIsExact(store.disk);
    var migrated := MovePlanned(store, plan, faults, now);
    r := Ok(Migrated(migrated, orphaned));
  }

  lemma {:induction false} LegacyExact(names: seq<DocName>)
    requires forall i, j :: 0 <= i < j < |names| ==> names[i] != names[j]
    ensures forall n :: n in LegacyNodes(names) <==> Legacy(n) in names
    ensures forall i, j :: 0 <= i < j < |LegacyNodes(names)| ==> LegacyNodes(names)[i] != LegacyNodes(names)[j]
    decreases |names|
  {
    if names != [] {
      var last := names[|names| - 1];
      LegacyExact(names[..|names| - 1]);
      assert names == names[..|names| - 1] + [last];
      assert last !in names[..|names| - 1];
    }
  }

  /** A legacy node is planned to move to `kb` exactly when `kb` is its only claimant. */
  lemma {:induction false} PlanExact(m: Manifests, legacy: seq<Id>)
    ensures forall n, kb :: (n, kb) in PlanOf(m, legacy) <==> n in legacy && m.Claimants(n) == {kb}
    decreases |legacy|
  {
    if legacy != [] {
      var n := legacy[|legacy| - 1];
      PlanExact(m, legacy[..|legacy| - 1]);
      assert legacy == legacy[..|legacy| - 1] + [n];
      if |m.Claimants(n)| == 1 {
        SoleOnly(m.Claimants(n));
      }
    }
  }

  lemma SoleOnly(s: set<Id>)
    requires |s| == 1
    ensures s == {Sole(s)}
  {
    SubsetSize({Sole(s)}, s);
  }

  /** A run is refused exactly when some legacy node has two claimants or more. */
  lemma {:induction false} AmbiguousExact(m: Manifests, legacy: seq<Id>)
    ensures AmbiguousOf(m, legacy) != [] <==> exists n :: n in legacy && |m.Claimants(n)| > 1
    ensures forall a :: a in AmbiguousOf(m, legacy) <==> a.n in legacy && |m.Claimants(a.n)| > 1 && a.kbs == m.Claimants(a.n)
    decreases |legacy|
  {
    if legacy != [] {
      AmbiguousExact(m, legacy[..|legacy| - 1]);
      assert legacy == legacy[..|legacy| - 1] + [legacy[|legacy| - 1]];
    }
  }

  lemma {:induction false} OrphansUpTo(m: Manifests, legacy: seq<Id>, k: nat)
    requires k <= |legacy|
    ensures OrphanCount(m, legacy[..k]) == |(set i | 0 <= i < k && m.Claimants(legacy[i]) == {})|
    decreases k
  {
    hide Manifests.Claimants;
    if k > 0 {
      OrphansUpTo(m, legacy, k - 1);
      assert legacy[..k][..k - 1] == legacy[..k - 1];
      var before := set i | 0 <= i < k - 1 && m.Claimants(legacy[i]) == {};
      var after := set i | 0 <= i < k && m.Claimants(legacy[i]) == {};
      assert after == if m.Claimants(legacy[k - 1]) == {} then before + {k - 1} else before;
    }
  }

  lemma {:induction false} PartsAddUp(m: Manifests, legacy: seq<Id>)
    ensures |PlanOf(m, legacy)| + |AmbiguousOf(m, legacy)| + OrphanCount(m, legacy) == |legacy|
    decreases |legacy|
  {
    hide Manifests.Claimants;
    if legacy != [] {
      PartsAddUp(m, legacy[..|legacy| - 1]);
    }
  }

  /** Every legacy node is planned, ambiguous or an orphan: the three counts add up, and the orphans are the nodes nobody claims. */
  lemma OrphansExact(m: Manifests, legacy: seq<Id>)
    ensures |PlanOf(m, legacy)| + |AmbiguousOf(m, legacy)| + OrphanCount(m, legacy) == |legacy|
    ensures OrphanCount(m, legacy) == |(set i | 0 <= i < |legacy| && m.Claimants(legacy[i]) == {})|
  {
    hide *;
    PartsAddUp(m, legacy);
    OrphansUpTo(m, legacy, |legacy|);
    assert legacy[..|legacy|] == legacy;
  }

  lemma MovedOneMore(plan: seq<(Id, Id)>, faults: FaultPlan, k: nat)
    requires k < |plan|
    ensures |(set i | 0 <= i < k + 1 && Moved(faults(plan[i].0)))|
         == |(set i | 0 <= i < k && Moved(faults(plan[i].0)))| + if Moved(faults(plan[k].0)) then 1 else 0
  {
    hide Moved;
    var before := set i | 0 <= i < k && Moved(faults(plan[i].0));
    var after := set i | 0 <= i < k + 1 && Moved(faults(plan[i].0));
    assert after == if Moved(faults(plan[k].0)) then before + {k} else before;
  }

  lemma {:induction false} MovedUpTo(plan: seq<(Id, Id)>, faults: FaultPlan, k: nat)
    requires k <= |plan|
    ensures CountMoved(plan[..k], faults) == |(set i | 0 <= i < k && Moved(faults(plan[i].0)))|
    decreases k
  {
    hide Moved;
    if k > 0 {
      MovedUpTo(plan, faults, k - 1);
      assert plan[..k][..k - 1] == plan[..k - 1];
      assert plan[..k][k - 1] == plan[k - 1];
      MovedOneMore(plan, faults, k - 1);
    }
  }

  /** The reported count is the number of planned moves whose read, append and load all succeed. */
  lemma MovedExact(plan: seq<(Id, Id)>, faults: FaultPlan)
    ensures CountMoved(plan, faults) == |(set i | 0 <= i < |plan| && Moved(faults(plan[i].0)))|
    ensures forall f :: Moved(f) <==> f.read == f.share.append == f.share.load == false
  {
    hide CountMoved;
    MovedUpTo(plan, faults, |plan|);
    assert plan[..|plan|] == plan;
  }

  lemma {:induction false} PlanDistinct(m: Manifests, legacy: seq<Id>)
    requires forall i, j :: 0 <= i < j < |legacy| ==> legacy[i] != legacy[j]
    ensures DistinctNodes(PlanOf(m, legacy))
    ensures forall i :: 0 <= i < |PlanOf(m, legacy)| ==> PlanOf(m, legacy)[i].0 in legacy
    decreases |legacy|
  {
    if legacy != [] {
      PlanDistinct(m, legacy[..|legacy| - 1]);
      assert legacy == legacy[..|legacy| - 1] + [legacy[|legacy| - 1]];
      assert legacy[|legacy| - 1] !in legacy[..|legacy| - 1];
    }
  }

  // ---- What a run leaves ----

  /** `d` is one of the two names some move of the plan works on. */
  ghost predicate InPlan(plan: seq<(Id, Id)>, d: DocName) {
    exists i :: 0 <= i < |plan| && (d == Legacy(plan[i].0) || d == KbNode(plan[i].1, plan[i].0))
  }

  lemma {:induction false} MovesTouchOnlyPlan(docs: Docs, remains: Docs, plan: seq<(Id, Id)>, faults: FaultPlan, d: DocName)
    requires !InPlan(plan, d)
    ensures SameAt(docs, MoveAll(docs, remains, plan, faults), d)
    decreases |plan|
  {
    hide Move;
    if plan != [] {
      var (n, kb) := plan[0];
      assert d != Legacy(plan[0].0) && d != KbNode(plan[0].1, plan[0].0);
      forall i | 0 <= i < |plan[1..]| ensures d != Legacy(plan[1..][i].0) && d != KbNode(plan[1..][i].1, plan[1..][i].0) {
        assert plan[1..][i] == plan[i + 1];
      }
      MoveTouchesOnly(docs, remains, n, kb, faults(n), d);
      MovesTouchOnlyPlan(Move(docs, remains, n, kb, faults(n)), remains, plan[1..], faults, d);
    }
  }

  /** Each planned node ends as its own move leaves it. */
  lemma {:induction false} MovesEachNode(docs: Docs, remains: Docs, plan: seq<(Id, Id)>, faults: FaultPlan, k: nat)
    requires DistinctNodes(plan) && k < |plan|
    ensures var (n, kb) := plan[k];
            var after, alone := MoveAll(docs, remains, plan, faults), Move(docs, remains, n, kb, faults(n));
            SameAt(alone, after, Legacy(n)) && SameAt(alone, after, KbNode(kb, n))
    decreases |plan|
  {
    hide Move;
    var (n0, kb0) := plan[0];
    var next, rest := Move(docs, remains, n0, kb0, faults(n0)), plan[1..];
    if k == 0 {
      assert !InPlan(rest, Legacy(n0)) && !InPlan(rest, KbNode(kb0, n0));
      MovesTouchOnlyPlan(next, remains, rest, faults, Legacy(n0));
      MovesTouchOnlyPlan(next, remains, rest, faults, KbNode(kb0, n0));
    } else {
      var (n, kb) := plan[k];
      assert rest[k - 1] == plan[k] && n != n0;
      MovesEachNode(next, remains, rest, faults, k - 1);
      MoveTouchesOnly(docs, remains, n0, kb0, faults(n0), Legacy(n));
      MoveTouchesOnly(docs, remains, n0, kb0, faults(n0), KbNode(kb, n));
      MoveLocal(docs, next, remains, n, kb, faults(n));
    }
  }

  /** Node `n`'s content from `before` is whole under its legacy or its scoped name. */
  predicate Preserved(before: Docs, after: Docs, n: Id, kb: Id)
    requires Legacy(n) in before
  {
    || (Legacy(n) in after && after[Legacy(n)] == before[Legacy(n)])
    || (KbNode(kb, n) in after && before[Legacy(n)] <= after[KbNode(kb, n)])
  }

  /** Whatever storage calls fail, even half-way through a delete, no planned node loses content. */
  lemma FaultsLoseNothing(docs: Docs, remains: Docs, plan: seq<(Id, Id)>, faults: FaultPlan, k: nat)
    requires DistinctNodes(plan) && k < |plan| && Legacy(plan[k].0) in docs
    ensures Preserved(docs, MoveAll(docs, remains, plan, faults), plan[k].0, plan[k].1)
  {
    hide MoveAll;
    MovesEachNode(docs, remains, plan, faults, k);
  }

  /** A run without faults moves every planned document whole and leaves the rest alone. */
  lemma CleanMoves(docs: Docs, remains: Docs, plan: seq<(Id, Id)>, faults: FaultPlan)
    requires DistinctNodes(plan) && forall n :: faults(n) == CLEAN
    requires forall i :: 0 <= i < |plan| ==> Legacy(plan[i].0) in docs
    ensures var after := MoveAll(docs, remains, plan, faults);
            && (forall i :: 0 <= i < |plan| ==>
                  && Legacy(plan[i].0) !in after
                  && KbNode(plan[i].1, plan[i].0) in after
                  && after[KbNode(plan[i].1, plan[i].0)] == docs[Legacy(plan[i].0)])
            && (forall d :: !InPlan(plan, d) ==> SameAt(docs, after, d))
    ensures CountMoved(plan, faults) == |plan|
  {
    hide MoveAll, CountMoved;
    CleanCount(plan, faults);
    var after := MoveAll(docs, remains, plan, faults);
    forall d | !InPlan(plan, d) ensures SameAt(docs, after, d) {
      MovesTouchOnlyPlan(docs, remains, plan, faults, d);
    }
    forall i | 0 <= i < |plan|
      ensures && Legacy(plan[i].0) !in after
              && KbNode(plan[i].1, plan[i].0) in after
              && after[KbNode(plan[i].1, plan[i].0)] == docs[Legacy(plan[i].0)]
    {
      MovesEachNode(docs, remains, plan, faults, i);
    }
  }

  lemma {:induction false} CleanCount(plan: seq<(Id, Id)>, faults: FaultPlan)
    requires forall n :: faults(n) == CLEAN
    ensures CountMoved(plan, faults) == |plan|
    decreases |plan|
  {
    if plan != [] {
      CleanCount(plan[..|plan| - 1], faults);
    }
  }

  lemma Single(s: set<Id>)
    ensures |s| == 1 ==> exists x :: s == {x}
  {
    if |s| == 1 {
      SoleOnly(s);
    }
  }

  /** A legacy document that is still there after the moves has no claimant. */
  lemma RemainingUnclaimed(m: Manifests, legacy: seq<Id>, plan: seq<(Id, Id)>, after: Docs, n: Id)
    requires forall k, kb :: (k, kb) in plan <==> k in legacy && m.Claimants(k) == {kb}
    requires forall k :: k in legacy <==> Legacy(k) in m.docs
    requires forall k :: k in legacy ==> |m.Claimants(k)| <= 1
    requires forall i :: 0 <= i < |plan| ==> Legacy(plan[i].0) !in after
    requires forall d :: !InPlan(plan, d) ==> SameAt(m.docs, after, d)
    requires Legacy(n) in after
    ensures n in legacy && m.Claimants(n) == {}
  {
    assert forall i :: 0 <= i < |plan| ==> plan[i].0 != n;
    assert !InPlan(plan, Legacy(n));
    Single(m.Claimants(n));
  }

  ghost predicate Lists(names: seq<DocName>, docs: Docs) {
    && (forall d :: d in names <==> d in docs)
    && (forall i, j :: 0 <= i < j < |names| ==> names[i] != names[j])
  }

  /** After a run without faults, a second one finds nothing to move and nothing ambiguous. */
  lemma SecondRunIsQuiet(m: Manifests, remains: Docs, remains': Docs, names: seq<DocName>, names': seq<DocName>, faults: FaultPlan)
    requires Lists(names, m.docs)
    requires AmbiguousOf(m, LegacyNodes(names)) == [] && forall n :: faults(n) == CLEAN
    requires Lists(names', MoveAll(m.docs, remains, PlanOf(m, LegacyNodes(names)), faults))
    ensures var m' := m.(docs := MoveAll(m.docs, remains, PlanOf(m, LegacyNodes(names)), faults));
            && PlanOf(m', LegacyNodes(names')) == []
            && AmbiguousOf(m', LegacyNodes(names')) == []
            && MoveAll(m'.docs, remains', PlanOf(m', LegacyNodes(names')), faults) == m'.docs
  {
    hide MoveAll, PlanOf, AmbiguousOf, LegacyNodes, Manifests.Claimants;
    var legacy, legacy' := LegacyNodes(names), LegacyNodes(names');
    var plan := PlanOf(m, legacy);
    LegacyExact(names);
    LegacyExact(names');
    PlanExact(m, legacy);
    PlanDistinct(m, legacy);
    AmbiguousExact(m, legacy);
    CleanMoves(m.docs, remains, plan, faults);
    var m' := m.(docs := MoveAll(m.docs, remains, plan, faults));
    SameClaims(m, m', plan);
    PlanExact(m', legacy');
    AmbiguousExact(m', legacy');
    forall n | n in legacy' ensures m'.Claimants(n) == {} {
      RemainingUnclaimed(m, legacy, plan, m'.docs, n);
    }
    EmptyPlan(m', legacy');
    NoMoves(m'.docs, remains', faults);
  }

  lemma NoMoves(docs: Docs, remains: Docs, faults: FaultPlan)
    ensures MoveAll(docs, remains, [], faults) == docs
  {
  }

  lemma {:induction false} EmptyPlan(m: Manifests, legacy: seq<Id>)
    requires forall n :: n in legacy ==> m.Claimants(n) == {}
    ensures PlanOf(m, legacy) == []
    decreases |legacy|
  {
    if legacy != [] {
      EmptyPlan(m, legacy[..|legacy| - 1]);
    }
  }

  /** Claims come from collection documents alone. */
  lemma ClaimsOfCollections(m: Manifests, m': Manifests)
    requires m' == m.(docs := m'.docs)
    requires forall d: DocName :: d.KbCollection? ==> SameAt(m.docs, m'.docs, d)
    ensures forall n :: m'.Claimants(n) == m.Claimants(n)
  {
    forall n ensures m'.Claimants(n) == m.Claimants(n) {
      forall d: DocName | d.KbCollection? ensures m'.Readable(d) <==> m.Readable(d) {
        assert SameAt(m.docs, m'.docs, d);
      }
    }
  }

  /** Moves never touch a manifest, so claims stay as they were. */
  lemma SameClaims(m: Manifests, m': Manifests, plan: seq<(Id, Id)>)
    requires m' == m.(docs := m'.docs)
    requires forall d :: !InPlan(plan, d) ==> SameAt(m.docs, m'.docs, d)
    ensures forall n :: m'.Claimants(n) == m.Claimants(n)
  {
    forall d: DocName | d.KbCollection? ensures SameAt(m.docs, m'.docs, d) {
      assert !InPlan(plan, d);
    }
    ClaimsOfCollections(m, m');
  }
}
