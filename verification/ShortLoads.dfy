/**
 Loads that come back short. The backend takes an error while it steps through a result
 for the end of it, so a load can report success with the snapshot or the last log rows
 missing. The document store then works on that document as if it were whole.

 One document is followed here, with operations atomic; `DocStores` covers loads that
 report their failure.
 */
module ShortLoads {
  import opened Basics
  import opened DocNames
  import opened Storage
  import DocStores

  /** How a load goes: whole, or with the snapshot unseen and only so many log rows seen. */
  datatype Load = Full | Short(noSnapshot: bool, rows: nat)

  datatype Mem = Mem(sync: Doc, walSeq: nat)

  datatype World = World(disk: Disk, mem: Option<Mem>)

  function Seen(l: Load, rows: seq<WalEntry>): seq<WalEntry> {
    if l.Short? && l.rows < |rows| then rows[..l.rows] else rows
  }

  /** What the load returns. */
  function LoadedState(disk: Disk, d: DocName, l: Load): Option<DocumentState> {
    var hidden := l.Short? && l.noSnapshot;
    var snapshot := if d in disk.snapshots && !hidden then Some(disk.snapshots[d].state) else None;
    var tail := Seen(l, After(disk.Rows(d), if hidden then 0 else disk.Cutoff(d)));
    if snapshot.None? && tail == [] then None else Some(DocumentState(snapshot, tail))
  }

  /** The load as the backend runs it: one step for the snapshot, then one per row until a step yields none. */
  method LoadDocument(disk: Disk, d: DocName, l: Load) returns (state: Option<DocumentState>)
    ensures state == LoadedState(disk, d, l)
  {
    var snapshot, cutoff := None, 0;
    if d in disk.snapshots && !(l.Short? && l.noSnapshot) {
      snapshot, cutoff := Some(disk.snapshots[d].state), disk.snapshots[d].walId;
    }
    var rows := After(disk.Rows(d), cutoff);
    var entries := [];
    var i := 0;
    while i < |rows| && !(l.Short? && i == l.rows)
      invariant 0 <= i <= |rows| && entries == rows[..i]
      invariant l.Short? ==> i <= l.rows
    {
      entries := entries + [rows[i]];
      i := i + 1;
    }
    assert rows[..|rows|] == rows;
    assert entries == Seen(l, rows);
    if snapshot.None? && entries == [] {
      return None;
    }
    return Some(DocumentState(snapshot, entries));
  }

  /** The entry built from it; a document that seems absent opens empty. */
  ghost function Opened(disk: Disk, d: DocName, l: Load): Mem {
    match LoadedState(disk, d, l)
    case None => Mem({}, 0)
    case Some(state) =>
      Mem((if state.snapshot.Some? then state.snapshot.value else {}) + Join(state.walTail), DocStores.LastId(state.walTail))
  }

  datatype Action =
    | Write(update: Doc, l: Load)
    | Read(l: Load)
    | Compact(l: Load)
    | Unload

  /** The world with the document in memory; without leave to create, a durable one that seems absent is refused. */
  ghost function Opening(d: DocName, w: World, l: Load, mayCreate: bool): World {
    if w.mem.Some? || (!mayCreate && Durable(d) && LoadedState(w.disk, d, l).None?) then w
    else w.(mem := Some(Opened(w.disk, d, l)))
  }

  ghost function Installed(d: DocName, w: World): World {
    if w.mem.None? then w else w.(disk := w.disk.Compact(d, w.mem.value.sync, w.mem.value.walSeq))
  }

  ghost function Exec(d: DocName, w: World, a: Action): World {
    match a
    case Write(u, l) =>
      var o := Opening(d, World(w.disk.WalAppend(d, u), w.mem), l, true);
      o.(mem := Some(Mem((if o.mem.Some? then o.mem.value.sync else {}) + u, w.disk.nextId)))
    case Read(l) => Opening(d, w, l, false)
    case Compact(l) => Installed(d, Opening(d, w, l, false))
    case Unload => w.(mem := None)
  }

  ghost function Run(d: DocName, w: World, actions: seq<Action>): World
    decreases |actions|
  {
    if actions == [] then w else Run(d, Exec(d, w, actions[0]), actions[1..])
  }

  // ---- What an entry lacks ----

  /** The entry holds nothing storage does not, at a log position that was reached. */
  ghost predicate Inv(d: DocName, w: World) {
    && w.disk.Wf()
    && (w.mem.Some? ==> w.mem.value.sync <= w.disk.Content(d) && w.mem.value.walSeq < w.disk.nextId)
  }

  /** What would be left of the document if the entry were installed now. */
  ghost function Covered(d: DocName, w: World): Doc {
    if w.mem.None? then w.disk.Content(d)
    else w.mem.value.sync + Join(After(w.disk.Rows(d), w.mem.value.walSeq))
  }

  lemma JoinSubset(a: seq<WalEntry>, b: seq<WalEntry>)
    requires forall r :: r in a ==> r in b
    ensures Join(a) <= Join(b)
  {
  }

  lemma JoinConcat(a: seq<WalEntry>, b: seq<WalEntry>)
    ensures Join(a + b) == Join(a) + Join(b)
  {
    forall op | op in Join(a) + Join(b) ensures op in Join(a + b) {
      if op in Join(a) {
        var r :| r in a && op in r.update;
        assert r in a + b;
      } else {
        var r :| r in b && op in r.update;
        assert r in a + b;
      }
    }
  }

  lemma {:induction false} AfterSplit(rows: seq<WalEntry>, k: nat, cut: nat)
    requires k <= |rows|
    requires forall i :: 0 <= i < k ==> rows[i].id <= cut
    requires forall i :: k <= i < |rows| ==> rows[i].id > cut
    ensures After(rows, cut) == rows[k..]
    decreases |rows|
  {
    if k < |rows| {
      AfterSplit(rows[..|rows| - 1], k, cut);
      assert rows[k..] == rows[..|rows| - 1][k..] + [rows[|rows| - 1]];
    } else if |rows| > 0 {
      AfterSplit(rows[..|rows| - 1], k - 1, cut);
    }
  }

  /** The rows after the first `k` are those above the last of them. */
  lemma AfterLast(rows: seq<WalEntry>, k: nat)
    requires Increasing(rows) && k <= |rows| && forall r :: r in rows ==> r.id > 0
    ensures After(rows, DocStores.LastId(rows[..k])) == rows[k..]
  {
    hide After;
    var cut := if k == 0 then 0 else rows[k - 1].id;
    assert DocStores.LastId(rows[..k]) == cut;
    forall i | k <= i < |rows| ensures rows[i].id > cut {
      assert rows[i] in rows;
    }
    AfterSplit(rows, k, cut);
  }

  lemma RowsPositive(disk: Disk, d: DocName)
    requires disk.Wf()
    ensures Increasing(disk.Rows(d)) && forall r :: r in disk.Rows(d) ==> r.id > 0
    ensures After(disk.Rows(d), 0) == disk.Rows(d)
  {
    AfterKeepsAll(disk.Rows(d), 0);
  }

  /** What an entry just opened holds. */
  lemma OpenedParts(disk: Disk, d: DocName, l: Load)
    requires disk.Wf()
    ensures var m := Opened(disk, d, l);
            && m.sync == (if l.Short? && l.noSnapshot then {} else disk.SnapshotState(d)) + Join(Seen(l, disk.Rows(d)))
            && m.walSeq == DocStores.LastId(Seen(l, disk.Rows(d)))
  {
    hide Disk.Wf, Join, Increasing;
    RowsPositive(disk, d);
    ContentIsEverything(disk, d);
    EmptyJoin();
  }

  /** What an entry just opened holds, and what installing it would leave. */
  lemma OpenedHolds(disk: Disk, d: DocName, l: Load)
    requires disk.Wf()
    ensures var hidden, rows := l.Short? && l.noSnapshot, disk.Rows(d);
            var m := Opened(disk, d, l);
            && m.sync == (if hidden then {} else disk.SnapshotState(d)) + Join(Seen(l, rows))
            && m.walSeq < disk.nextId && m.sync <= disk.Content(d)
            && Covered(d, World(disk, Some(m))) == (if hidden then {} else disk.SnapshotState(d)) + Join(rows)
  {
    hide Disk.Wf, Disk.Content, Join, Increasing, Opened, After, DocStores.LastId, Disk.SnapshotState;
    var rows := disk.Rows(d);
    var k := if l.Short? && l.rows < |rows| then l.rows else |rows|;
    OpenedParts(disk, d, l);
    RowsPositive(disk, d);
    ContentIsEverything(disk, d);
    assert rows[..|rows|] == rows;
    assert Seen(l, rows) == rows[..k];
    AfterLast(rows, k);
    assert rows == rows[..k] + rows[k..];
    JoinConcat(rows[..k], rows[k..]);
    LastIdBelow(disk, d, k);
  }

  lemma EmptyJoin()
    ensures Join([]) == {}
  {
  }

  lemma LastIdBelow(disk: Disk, d: DocName, k: nat)
    requires disk.Wf() && k <= |disk.Rows(d)|
    ensures DocStores.LastId(disk.Rows(d)[..k]) < disk.nextId
  {
    if k > 0 {
      assert disk.Rows(d)[k - 1] in disk.wal[d];
    }
  }

  // ---- What a step loses ----

  lemma OpeningKeeps(d: DocName, w: World, l: Load, mayCreate: bool)
    requires Inv(d, w)
    ensures Inv(d, Opening(d, w, l, mayCreate)) && Opening(d, w, l, mayCreate).disk == w.disk
  {
    hide Disk.Wf, Disk.Content;
    OpenedHolds(w.disk, d, l);
  }

  lemma CoveredIsContent(d: DocName, w: World)
    requires Inv(d, w)
    ensures Covered(d, w) <= w.disk.Content(d)
  {
    hide Disk.Wf;
    if w.mem.Some? {
      ContentIsEverything(w.disk, d);
      JoinSubset(After(w.disk.Rows(d), w.mem.value.walSeq), w.disk.Rows(d));
    }
  }

  /** Installing an entry leaves exactly what it covers. */
  lemma InstalledContent(d: DocName, w: World)
    requires Inv(d, w)
    ensures Installed(d, w).disk.Wf() && Installed(d, w).disk.Content(d) == Covered(d, w)
    ensures Covered(d, Installed(d, w)) == Covered(d, w)
    ensures Inv(d, Installed(d, w))
  {
    if w.mem.Some? {
      var m := w.mem.value;
      var next := w.disk.Compact(d, m.sync, m.walSeq);
      CompactWf(w.disk, d, m.sync, m.walSeq);
      ContentIsEverything(next, d);
      AfterKeepsAll(next.Rows(d), m.walSeq);
    }
  }

  /** What is written by an action. */
  function Written(a: Action): Doc {
    if a.Write? then a.update else {}
  }

  /** The entry an action works on, before it does anything else. */
  ghost function Working(d: DocName, w: World, a: Action): World {
    match a
    case Write(u, l) => Opening(d, World(w.disk.WalAppend(d, u), w.mem), l, true)
    case Read(l) => Opening(d, w, l, false)
    case Compact(l) => Opening(d, w, l, false)
    case Unload => w
  }

  /**
   A step keeps everything stored and adds exactly what it writes, except that a compaction
   loses exactly what the entry it captures neither holds nor leaves in the log.
   */
  lemma StepLosesExactly(d: DocName, w: World, a: Action)
    requires Inv(d, w)
    ensures Inv(d, Exec(d, w, a))
    ensures Exec(d, w, a).disk.Content(d)
         == if a.Compact? then Covered(d, Working(d, w, a)) else w.disk.Content(d) + Written(a)
  {
    hide Disk.Wf, Disk.Content, Covered, Opened, Join;
    match a
    case Write(u, l) =>
      AppendContent(w.disk, d, u);
      OpeningKeeps(d, World(w.disk.WalAppend(d, u), w.mem), l, true);
    case Read(l) =>
      OpeningKeeps(d, w, l, false);
    case Compact(l) =>
      OpeningKeeps(d, w, l, false);
      InstalledContent(d, Opening(d, w, l, false));
    case Unload =>
  }

  // ---- When a short load does harm ----

  predicate FullLoads(actions: seq<Action>) {
    forall a :: a in actions ==> a.Unload? || a.l.Full?
  }

  /** The entry in memory, if any, is whole. */
  ghost predicate Whole(d: DocName, w: World) {
    w.mem.Some? ==> w.mem.value.sync == w.disk.Content(d)
  }

  /** Installing the entry in memory, if any, would lose nothing. */
  ghost predicate Safe(d: DocName, w: World) {
    Covered(d, w) == w.disk.Content(d)
  }

  lemma FullIsWhole(d: DocName, disk: Disk)
    requires disk.Wf()
    ensures Opened(disk, d, Full).sync == disk.Content(d)
    ensures Safe(d, World(disk, Some(Opened(disk, d, Full))))
  {
    hide Disk.Wf, Join;
    OpenedHolds(disk, d, Full);
    ContentIsEverything(disk, d);
  }

  lemma WholeIsSafe(d: DocName, w: World)
    requires Inv(d, w) && Whole(d, w)
    ensures Safe(d, w)
  {
    hide Disk.Wf, Disk.Content, Join;
    CoveredIsContent(d, w);
  }

  /** With whole loads, a whole entry stays whole and nothing is lost. */
  lemma WholeStep(d: DocName, w: World, a: Action)
    requires Inv(d, w) && Whole(d, w) && (a.Unload? || a.l.Full?)
    ensures Whole(d, Exec(d, w, a)) && w.disk.Content(d) <= Exec(d, w, a).disk.Content(d)
  {
    hide Disk.Wf, Disk.Content, Covered, Opened, Join;
    StepLosesExactly(d, w, a);
    match a
    case Write(u, l) =>
      AppendContent(w.disk, d, u);
      FullIsWhole(d, w.disk.WalAppend(d, u));
    case Read(l) =>
      FullIsWhole(d, w.disk);
    case Compact(l) =>
      FullIsWhole(d, w.disk);
      OpeningKeeps(d, w, l, false);
      WholeIsSafe(d, Opening(d, w, l, false));
    case Unload =>
  }

  lemma {:induction false} WholeRun(d: DocName, w: World, actions: seq<Action>)
    requires Inv(d, w) && Whole(d, w) && FullLoads(actions)
    ensures w.disk.Content(d) <= Run(d, w, actions).disk.Content(d)
    decreases |actions|
  {
    hide Disk.Wf, Disk.Content, Exec, Whole, Inv;
    if actions != [] {
      assert actions[0] in actions;
      assert forall a :: a in actions[1..] ==> a in actions;
      WholeStep(d, w, actions[0]);
      StepLosesExactly(d, w, actions[0]);
      WholeRun(d, Exec(d, w, actions[0]), actions[1..]);
    }
  }

  /**
   A document opened by a given load loses nothing, whatever is done next as long as no
   later load is short, if and only if the load returned the whole document. A write
   followed by a compaction is enough to lose the rest.
   */
  lemma ShortLoadHarmlessExactly(d: DocName, disk: Disk, l: Load)
    requires disk.Wf()
    ensures (forall actions :: FullLoads(actions) ==>
               disk.Content(d) <= Run(d, World(disk, Some(Opened(disk, d, l))), actions).disk.Content(d))
       <==> Opened(disk, d, l).sync == disk.Content(d)
  {
    hide Disk.Wf, Disk.Content, Run, Opened, Join;
    var w := World(disk, Some(Opened(disk, d, l)));
    OpenedHolds(disk, d, l);
    if Opened(disk, d, l).sync == disk.Content(d) {
      forall actions | FullLoads(actions) ensures disk.Content(d) <= Run(d, w, actions).disk.Content(d) {
        WholeRun(d, w, actions);
      }
    } else {
      WriteThenCompact(d, w);
      assert FullLoads([Write({}, Full), Compact(Full)]);
    }
  }

  /** An empty write and a compaction leave exactly what the entry held. */
  lemma WriteThenCompact(d: DocName, w: World)
    requires Inv(d, w) && w.mem.Some?
    ensures Run(d, w, [Write({}, Full), Compact(Full)]).disk.Content(d) == w.mem.value.sync
  {
    hide Disk.Content, Opened;
    var w1 := Exec(d, w, Write({}, Full));
    var w2 := Exec(d, w1, Compact(Full));
    assert Run(d, w2, []) == w2;
    assert [Compact(Full)][1..] == [];
    assert Run(d, w1, [Compact(Full)]) == w2;
    assert [Write({}, Full), Compact(Full)][1..] == [Compact(Full)];
    StepLosesExactly(d, w, Write({}, Full));
    StepLosesExactly(d, w1, Compact(Full));
    RowsBelow(w.disk, d);
    TrimmedAway(w1.disk.Rows(d), w.disk.nextId);
  }

  lemma RowsBelow(disk: Disk, d: DocName)
    requires disk.Wf()
    ensures forall r :: r in disk.WalAppend(d, {}).Rows(d) ==> r.id <= disk.nextId
  {
  }

  predicate NoWrites(actions: seq<Action>) {
    forall a :: a in actions ==> !a.Write?
  }

  lemma SafeStep(d: DocName, w: World, a: Action)
    requires Inv(d, w) && Safe(d, w) && !a.Write? && (a.Unload? || a.l.Full?)
    ensures Safe(d, Exec(d, w, a)) && Exec(d, w, a).disk.Content(d) == w.disk.Content(d)
  {
    hide Disk.Wf, Disk.Content, Opened, Join;
    StepLosesExactly(d, w, a);
    match a
    case Read(l) =>
      FullIsWhole(d, w.disk);
    case Compact(l) =>
      FullIsWhole(d, w.disk);
      OpeningKeeps(d, w, l, false);
      InstalledContent(d, Opening(d, w, l, false));
    case Unload =>
  }

  lemma {:induction false} SafeRun(d: DocName, w: World, actions: seq<Action>)
    requires Inv(d, w) && Safe(d, w) && FullLoads(actions) && NoWrites(actions)
    ensures Run(d, w, actions).disk.Content(d) == w.disk.Content(d)
    decreases |actions|
  {
    hide Disk.Wf, Disk.Content, Exec, Safe, Inv;
    if actions != [] {
      assert actions[0] in actions;
      assert forall a :: a in actions[1..] ==> a in actions;
      SafeStep(d, w, actions[0]);
      StepLosesExactly(d, w, actions[0]);
      SafeRun(d, Exec(d, w, actions[0]), actions[1..]);
    }
  }

  /**
   As long as nothing is written either, it loses nothing if and only if the load saw the
   snapshot, or the log rows cover it: rows cut off the end are still in the log.
   */
  lemma UnwrittenHarmlessExactly(d: DocName, disk: Disk, l: Load)
    requires disk.Wf()
    ensures (forall actions :: FullLoads(actions) && NoWrites(actions) ==>
               disk.Content(d) <= Run(d, World(disk, Some(Opened(disk, d, l))), actions).disk.Content(d))
       <==> (l.Short? && l.noSnapshot ==> disk.SnapshotState(d) <= Join(disk.Rows(d)))
  {
    hide Disk.Wf, Disk.Content, Run, Opened, Join, Disk.SnapshotState;
    var w := World(disk, Some(Opened(disk, d, l)));
    OpenedHolds(disk, d, l);
    ContentIsEverything(disk, d);
    if l.Short? && l.noSnapshot && !(disk.SnapshotState(d) <= Join(disk.Rows(d))) {
      JustCompact(d, w);
      assert FullLoads([Compact(Full)]) && NoWrites([Compact(Full)]);
    } else {
      forall actions | FullLoads(actions) && NoWrites(actions)
        ensures disk.Content(d) <= Run(d, w, actions).disk.Content(d)
      {
        SafeRun(d, w, actions);
      }
    }
  }

  lemma JustCompact(d: DocName, w: World)
    requires Inv(d, w) && w.mem.Some?
    ensures Run(d, w, [Compact(Full)]).disk.Content(d) == Covered(d, w)
  {
    hide Disk.Content, Opened, Covered;
    var w1 := Exec(d, w, Compact(Full));
    assert Run(d, w1, []) == w1;
    assert [Compact(Full)][1..] == [];
    StepLosesExactly(d, w, Compact(Full));
  }
}
