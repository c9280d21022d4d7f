/**
 The persistence backend: one snapshot per document and an append-only log of updates.

 The database is a value (`Disk`) and each call is a function from the database before
 to the database after. Row ids come from one counter that never goes back, so the ids
 of a document's log rows increase.
 */
module Storage {
  import opened Basics
  import opened DocNames

  datatype WalEntry = WalEntry(id: nat, update: Doc)

  datatype Snapshot = Snapshot(state: Doc, walId: nat)

  /** What a load returns: the snapshot, if any, and the log rows after it. */
  datatype DocumentState = DocumentState(snapshot: Option<Doc>, walTail: seq<WalEntry>)

  /** Everything the rows contribute. */
  ghost function Join(rows: seq<WalEntry>): Doc {
    set r, op | r in rows && op in r.update :: op
  }

  /** The rows with an id above `cut`, in order. */
  function After(rows: seq<WalEntry>, cut: nat): (kept: seq<WalEntry>)
    ensures forall r :: r in kept <==> r in rows && r.id > cut
  {
    if rows == [] then []
    else
      var kept := After(rows[..|rows| - 1], cut);
      var last := rows[|rows| - 1];
      assert rows == rows[..|rows| - 1] + [last];
      if last.id > cut then kept + [last] else kept
  }

  predicate Increasing(rows: seq<WalEntry>) {
    forall i, j :: 0 <= i < j < |rows| ==> rows[i].id < rows[j].id
  }

  lemma {:induction false} AfterIncreasing(rows: seq<WalEntry>, cut: nat)
    requires Increasing(rows)
    ensures Increasing(After(rows, cut))
  {
    if rows != [] {
      AfterIncreasing(rows[..|rows| - 1], cut);
      var kept := After(rows[..|rows| - 1], cut);
      forall r | r in kept ensures r.id < rows[|rows| - 1].id {
        assert r in rows[..|rows| - 1];
      }
    }
  }

  lemma {:induction false} AfterKeepsAll(rows: seq<WalEntry>, cut: nat)
    requires forall r :: r in rows ==> r.id > cut
    ensures After(rows, cut) == rows
  {
    if rows != [] {
      AfterKeepsAll(rows[..|rows| - 1], cut);
      assert rows == rows[..|rows| - 1] + [rows[|rows| - 1]];
    }
  }

  /** How a call to delete a document ends; `Torn` fails between its two statements. */
  datatype Deletion = Deleted | Refused | Torn

  /** What can happen to one stored document. */
  datatype Event = Log(update: Doc) | Save | Clear | Tear

  /**
   One document as storage holds it: what a load rebuilds, what the log alone would
   rebuild, whether there is a document, and whether there are log rows.
   */
  datatype Stored = Stored(content: Doc, unsaved: Doc, present: bool, hasRows: bool)

  const NOTHING_STORED := Stored({}, {}, false, false)

  function Happen(e: Event, f: Stored): Stored {
    match e
    case Log(update) => Stored(f.content + update, f.unsaved + update, true, true)
    case Save => Stored(f.content, {}, true, false)
    case Clear => NOTHING_STORED
    case Tear => Stored(f.unsaved, f.unsaved, f.hasRows, f.hasRows)
  }

  function HappenAll(events: seq<Event>, f: Stored): Stored {
    if events == [] then f else Happen(events[|events| - 1], HappenAll(events[..|events| - 1], f))
  }

  function DeleteEvents(how: Deletion): seq<Event> {
    match how
    case Deleted => [Clear]
    case Refused => []
    case Torn => [Tear]
  }

  datatype Disk = Disk(snapshots: map<DocName, Snapshot>, wal: map<DocName, seq<WalEntry>>, nextId: nat)
  {
    function Rows(d: DocName): seq<WalEntry> {
      if d in wal then wal[d] else []
    }

    function Cutoff(d: DocName): nat {
      if d in snapshots then snapshots[d].walId else 0
    }

    function SnapshotState(d: DocName): Doc {
      if d in snapshots then snapshots[d].state else {}
    }

    predicate Exists(d: DocName) {
      d in snapshots || Rows(d) != []
    }

    /** What a load of `d` would reconstruct. */
    ghost function Content(d: DocName): Doc {
      SnapshotState(d) + Join(After(Rows(d), Cutoff(d)))
    }

    /** Ids increase, stay below the counter, and no row survives its own snapshot. */
    ghost predicate Wf() {
      && nextId >= 1
      && (forall d :: d in snapshots ==> snapshots[d].walId < nextId)
      && (forall d :: d in wal ==>
            && Increasing(wal[d])
            && (forall r :: r in wal[d] ==> Cutoff(d) < r.id < nextId))
    }

    function WalAppend(d: DocName, update: Doc): Disk {
      this.(wal := wal[d := Rows(d) + [WalEntry(nextId, update)]], nextId := nextId + 1)
    }

    function LoadDocument(d: DocName): Option<DocumentState> {
      var snapshot := if d in snapshots then Some(snapshots[d].state) else None;
      var tail := After(Rows(d), Cutoff(d));
      if snapshot.None? && tail == [] then None else Some(DocumentState(snapshot, tail))
    }

    /** One transaction: install the snapshot and trim the log up to `upTo`. */
    function Compact(d: DocName, state: Doc, upTo: nat): Disk {
      this.(snapshots := snapshots[d := Snapshot(state, upTo)], wal := wal[d := After(Rows(d), upTo)])
    }

    /** The first of the two statements a document delete runs. */
    function DeleteSnapshot(d: DocName): Disk {
      this.(snapshots := snapshots - {d})
    }

    /** The second statement. */
    function DeleteRows(d: DocName): Disk {
      this.(wal := wal - {d})
    }

    function DeleteDocument(d: DocName): Disk {
      DeleteSnapshot(d).DeleteRows(d)
    }

    function Delete(d: DocName, how: Deletion): Disk {
      match how
      case Deleted => DeleteDocument(d)
      case Refused => this
      case Torn => DeleteSnapshot(d)
    }

    ghost function At(d: DocName): Stored {
      Stored(Content(d), Join(Rows(d)), Exists(d), Rows(d) != [])
    }

    function ListDocuments(): set<DocName> {
      snapshots.Keys + (set d | d in wal && wal[d] != [])
    }
  }

  const EMPTY_DISK := Disk(map[], map[], 1)

  /** On a well-formed disk the cutoff hides nothing. */
  lemma ContentIsEverything(disk: Disk, d: DocName)
    requires disk.Wf()
    ensures After(disk.Rows(d), disk.Cutoff(d)) == disk.Rows(d)
    ensures disk.Content(d) == disk.SnapshotState(d) + Join(disk.Rows(d))
    ensures !disk.Exists(d) ==> disk.Content(d) == {}
    ensures disk.LoadDocument(d).None? <==> !disk.Exists(d)
  {
    AfterKeepsAll(disk.Rows(d), disk.Cutoff(d));
  }

  lemma AbsentIsEmpty(disk: Disk, d: DocName)
    ensures !disk.Exists(d) ==> disk.Content(d) == {}
  {
  }

  lemma JoinAppend(rows: seq<WalEntry>, r: WalEntry)
    ensures Join(rows + [r]) == Join(rows) + r.update
  {
    forall op | op in Join(rows) + r.update ensures op in Join(rows + [r]) {
      if op in r.update {
        assert r in rows + [r];
      } else {
        var r' :| r' in rows && op in r'.update;
        assert r' in rows + [r];
      }
    }
  }

  lemma AppendIncreasing(rows: seq<WalEntry>, last: WalEntry)
    requires Increasing(rows)
    requires forall r :: r in rows ==> r.id < last.id
    ensures Increasing(rows + [last])
  {
  }

  lemma AppendWf(disk: Disk, d: DocName, update: Doc)
    requires disk.Wf()
    ensures disk.WalAppend(d, update).Wf()
  {
    AppendIncreasing(disk.Rows(d), WalEntry(disk.nextId, update));
  }

  lemma AppendContentAt(disk: Disk, d: DocName, update: Doc, x: DocName)
    requires disk.Wf()
    ensures disk.WalAppend(d, update).Content(x) == disk.Content(x) + (if x == d then update else {})
  {
    var next := disk.WalAppend(d, update);
    assert next.SnapshotState(x) == disk.SnapshotState(x);
    assert next.Content(x) == next.SnapshotState(x) + Join(next.Rows(x)) by {
      AppendWf(disk, d, update);
      ContentIsEverything(next, x);
    }
    assert disk.Content(x) == disk.SnapshotState(x) + Join(disk.Rows(x)) by {
      ContentIsEverything(disk, x);
    }
    if x == d {
      JoinAppend(disk.Rows(d), WalEntry(disk.nextId, update));
    } else {
      assert next.Rows(x) == disk.Rows(x);
    }
  }

  /** An append adds exactly its update, to its own document only. */
  lemma AppendContent(disk: Disk, d: DocName, update: Doc)
    requires disk.Wf()
    ensures disk.WalAppend(d, update).Wf()
    ensures disk.WalAppend(d, update).Exists(d)
    ensures forall x :: disk.WalAppend(d, update).Content(x) == disk.Content(x) + (if x == d then update else {})
    ensures forall x :: x != d ==> disk.WalAppend(d, update).Exists(x) == disk.Exists(x)
  {
    AppendWf(disk, d, update);
    forall x { AppendContentAt(disk, d, update, x); }
  }

  lemma CompactWf(disk: Disk, d: DocName, state: Doc, upTo: nat)
    requires disk.Wf() && upTo < disk.nextId
    ensures disk.Compact(d, state, upTo).Wf()
  {
    AfterIncreasing(disk.Rows(d), upTo);
  }

  lemma CompactContentAt(disk: Disk, d: DocName, state: Doc, upTo: nat, x: DocName)
    requires disk.Wf() && upTo < disk.nextId
    requires state == disk.Content(d)
    ensures disk.Compact(d, state, upTo).Content(x) == disk.Content(x)
  {
    CompactWf(disk, d, state, upTo);
    ContentIsEverything(disk.Compact(d, state, upTo), x);
    ContentIsEverything(disk, x);
  }

  /**
   Compacting with a state that covers the document changes no document's content,
   whatever log position the snapshot claims, including one that has gone back to 0.
   */
  lemma CompactContent(disk: Disk, d: DocName, state: Doc, upTo: nat)
    requires disk.Wf() && upTo < disk.nextId
    requires state == disk.Content(d)
    ensures disk.Compact(d, state, upTo).Wf()
    ensures disk.Compact(d, state, upTo).Exists(d)
    ensures forall x :: disk.Compact(d, state, upTo).Content(x) == disk.Content(x)
    ensures forall x :: x != d ==> disk.Compact(d, state, upTo).Exists(x) == disk.Exists(x)
  {
    CompactWf(disk, d, state, upTo);
    forall x { CompactContentAt(disk, d, state, upTo, x); }
  }

  /** Deleting a document empties it and touches nothing else. */
  lemma DeleteContent(disk: Disk, d: DocName)
    requires disk.Wf()
    ensures disk.DeleteDocument(d).Wf()
    ensures !disk.DeleteDocument(d).Exists(d)
    ensures forall x :: disk.DeleteDocument(d).Content(x) == if x == d then {} else disk.Content(x)
    ensures forall x :: x != d ==> disk.DeleteDocument(d).Exists(x) == disk.Exists(x)
  {
    var next := disk.DeleteDocument(d);
    assert next.Wf();
    ContentIsEverything(next, d);
    forall x | x != d ensures next.Content(x) == disk.Content(x) {
      assert next.Rows(x) == disk.Rows(x) && next.Cutoff(x) == disk.Cutoff(x);
    }
  }

  // ---- Calls as events ----

  lemma HappenOne(e: Event, f: Stored)
    ensures HappenAll([e], f) == Happen(e, f)
  {
    assert [e][..0] == [];
  }

  lemma HappenTwo(e: Event, e': Event, f: Stored)
    ensures HappenAll([e, e'], f) == Happen(e', Happen(e, f))
  {
    assert [e, e'][..1] == [e];
    HappenOne(e, f);
  }

  /** An append logs its update to its own document only. */
  lemma AppendEvent(disk: Disk, d: DocName, update: Doc)
    requires disk.Wf()
    ensures disk.WalAppend(d, update).Wf()
    ensures forall x :: disk.WalAppend(d, update).At(x) == if x == d then Happen(Log(update), disk.At(x)) else disk.At(x)
  {
    hide Disk.Wf, Disk.Content;
    AppendContent(disk, d, update);
    JoinAppend(disk.Rows(d), WalEntry(disk.nextId, update));
  }

  lemma {:induction false} TrimmedAway(rows: seq<WalEntry>, upTo: nat)
    requires forall r :: r in rows ==> r.id <= upTo
    ensures After(rows, upTo) == []
  {
    if rows != [] {
      TrimmedAway(rows[..|rows| - 1], upTo);
    }
  }

  /** Compacting with the whole document and every log row covered saves it. */
  lemma CompactEvent(disk: Disk, d: DocName, state: Doc, upTo: nat)
    requires disk.Wf() && upTo < disk.nextId
    requires state == disk.Content(d) && forall r :: r in disk.Rows(d) ==> r.id <= upTo
    ensures disk.Compact(d, state, upTo).Wf()
    ensures disk.Compact(d, state, upTo).Rows(d) == []
    ensures forall x :: disk.Compact(d, state, upTo).At(x) == if x == d then Happen(Save, disk.At(x)) else disk.At(x)
  {
    hide Disk.Wf, Disk.Content;
    CompactContent(disk, d, state, upTo);
    TrimmedAway(disk.Rows(d), upTo);
  }

  /** A delete that fails between its statements leaves the log rows, of its own document only. */
  lemma TearContent(disk: Disk, d: DocName)
    requires disk.Wf()
    ensures disk.DeleteSnapshot(d).Wf()
    ensures disk.DeleteSnapshot(d).Content(d) == Join(disk.Rows(d))
    ensures forall x :: x != d ==> disk.DeleteSnapshot(d).Content(x) == disk.Content(x)
  {
    var next := disk.DeleteSnapshot(d);
    assert next.Wf();
    ContentIsEverything(next, d);
    forall x | x != d ensures next.Content(x) == disk.Content(x) {
      assert next.Rows(x) == disk.Rows(x) && next.Cutoff(x) == disk.Cutoff(x);
    }
  }

  /** A delete clears its document, leaves its log rows behind, or does nothing. */
  lemma DeleteEvent(disk: Disk, d: DocName, how: Deletion)
    requires disk.Wf()
    ensures disk.Delete(d, how).Wf()
    ensures forall x :: disk.Delete(d, how).At(x) == if x == d then HappenAll(DeleteEvents(how), disk.At(x)) else disk.At(x)
  {
    hide Disk.Wf, Disk.Content;
    DeleteContent(disk, d);
    TearContent(disk, d);
    HappenOne(Clear, disk.At(d));
    HappenOne(Tear, disk.At(d));
  }
}
