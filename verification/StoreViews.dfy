/**
 The document store as other components see it: a map from stored names to contents, and
 what reads, shares and deletes do to that map.
 */
module StoreViews {
  import opened Basics
  import opened DocNames
  import opened Storage
  import opened DocStores
  import DocStoreRuns

  /** What the database holds, as a map. */
  ghost function View(disk: Disk): Docs {
    map d | d in disk.ListDocuments() :: disk.Content(d)
  }

  lemma ViewIsExact(disk: Disk)
    ensures forall d :: d in View(disk) <==> disk.Exists(d)
    ensures forall d :: d in View(disk) ==> View(disk)[d] == disk.Content(d)
  {
    hide Disk.Content;
    forall d ensures d in disk.ListDocuments() <==> disk.Exists(d) {
    }
  }

  /** What a delete that fails half-way would leave of each document with log rows. */
  ghost function Remains(disk: Disk): Docs {
    map d | d in disk.ListDocuments() && disk.Rows(d) != [] :: Join(disk.Rows(d))
  }

  lemma RemainsIsExact(disk: Disk)
    ensures forall d :: d in Remains(disk) <==> disk.At(d).hasRows
    ensures forall d :: d in Remains(disk) ==> Remains(disk)[d] == disk.At(d).unsaved
  {
  }

  /** Every resident durable document is stored: none was created by an authorized read. */
  ghost predicate NoPhantoms(s: State) {
    forall d :: d in s.docs && Durable(d) ==> s.disk.Exists(d)
  }

  /**
   What ordinary reads of durable documents can see: every stored document they can load,
   perhaps some that are only resident, and nothing else.
   */
  ghost predicate SeenBy(s: State, unreadable: set<DocName>, seen: Docs) {
    && (forall d :: d in seen ==> seen[d] == s.disk.Content(d))
    && (forall d :: d in seen ==> s.disk.Exists(d) || (Durable(d) && d in s.docs))
    && (forall d :: s.disk.Exists(d) && d !in unreadable ==> d in seen)
  }

  /** When nothing lives only in memory and everything loads, that is the stored documents. */
  lemma SeenIsView(s: State, seen: Docs)
    requires SeenBy(s, {}, seen) && NoPhantoms(s)
    ensures seen == View(s.disk)
  {
    hide Disk.Content, Disk.Exists, View;
    ViewIsExact(s.disk);
    forall d ensures d in seen <==> d in View(s.disk) {
    }
  }

  /** An ordinary read of a durable document. */
  lemma ReadKeepsStored(config: Config, s: State, op: Operation, out: Outcome, s': State)
    requires op.Read? && Durable(op.d) && !op.authorized && Step(config, s, op, out, s')
    ensures s'.disk == s.disk && s'.feed == s.feed
    ensures out.reply.Content? <==> op.d in s.docs || (!op.loadFails && s.disk.Exists(op.d))
    ensures out.reply.Content? ==> out.reply.doc == s.disk.Content(op.d)
    ensures s'.docs.Keys <= s.docs.Keys + (if s.disk.Exists(op.d) then {op.d} else {})
  {
    hide Disk.Content, Disk.Exists, EvictionRule, EntryOf;
  }

  /** An authorized read. */
  lemma AuthorizedRead(config: Config, s: State, op: Operation, out: Outcome, s': State)
    requires op.Read? && op.authorized && Sound(s) && Step(config, s, op, out, s')
    ensures s'.disk == s.disk && s'.feed == s.feed
    ensures out.reply.Content? <==> op.d in s.docs || !op.loadFails
    ensures out.reply.Content? ==> out.reply.doc == s.disk.Content(op.d)
    ensures s'.docs.Keys <= s.docs.Keys + (if out.reply.Content? then {op.d} else {})
  {
    hide Disk.Content, Disk.Exists, EvictionRule, EntryOf;
  }

  /** What a delete leaves, given how it ends and what its document's log holds. */
  function DeleteFrom(docs: Docs, remains: Docs, d: DocName, how: Deletion): Docs {
    match how
    case Deleted => docs - {d}
    case Refused => docs
    case Torn => if d in remains then docs[d := remains[d]] else docs - {d}
  }

  /** What a share leaves, given which of its storage calls fail. */
  function ShareInto(docs: Docs, remains: Docs, d: DocName, ops: Doc, f: Faults): Docs {
    var kept := DeleteFrom(docs, remains, d, f.delete);
    if f.append then kept else kept[d := (if d in kept then kept[d] else {}) + ops]
  }

  lemma ShareReply(config: Config, s: State, op: Operation, out: Outcome, s': State)
    requires op.Share? && Step(config, s, op, out, s')
    ensures out.reply.Done? <==> op.update.Ops? && !op.f.append && !op.f.load
    ensures s'.docs.Keys <= s.docs.Keys + {op.d}
  {
    hide Disk.Content, Disk.Exists, EvictionRule, EntryOf;
  }

  /** Databases that agree on every document outside `d` have views that do. */
  lemma ViewsDiffer(a: Disk, b: Disk, d: DocName, target: Docs)
    requires forall x :: x != d ==> a.At(x) == b.At(x)
    requires forall x :: x != d ==> (x in target <==> x in View(a)) && (x in target ==> target[x] == View(a)[x])
    requires d in target <==> b.At(d).present
    requires d in target ==> target[d] == b.At(d).content
    ensures View(b) == target
  {
    hide Disk.Content, View;
    ViewIsExact(a);
    ViewIsExact(b);
    forall x ensures x in View(b) <==> x in target {
      assert a.At(x).present == a.Exists(x) && b.At(x).present == b.Exists(x);
    }
    forall x | x in target ensures View(b)[x] == target[x] {
      assert a.At(x).content == a.Content(x) && b.At(x).content == b.Content(x);
    }
  }

  /** An absent document holds nothing, and one with log rows is there. */
  lemma StoredShape(disk: Disk, d: DocName)
    ensures !disk.At(d).present ==> disk.At(d).content == {}
    ensures disk.At(d).hasRows ==> disk.At(d).present
    ensures disk.At(d).present <==> d in View(disk)
    ensures d in View(disk) ==> View(disk)[d] == disk.At(d).content
    ensures !disk.At(d).hasRows ==> disk.At(d).unsaved == {}
  {
    AbsentIsEmpty(disk, d);
    ViewIsExact(disk);
  }

  /** The map entry of `d` is the stored document `f`. */
  predicate Shows(docs: Docs, d: DocName, f: Stored) {
    (d in docs <==> f.present) && (if d in docs then docs[d] else {}) == f.content
  }

  lemma DiskShows(disk: Disk, d: DocName)
    ensures Shows(View(disk), d, disk.At(d))
    ensures disk.At(d).hasRows <==> d in Remains(disk)
    ensures disk.At(d).unsaved == if d in Remains(disk) then Remains(disk)[d] else {}
  {
    hide Disk.At, View, Remains;
    StoredShape(disk, d);
    RemainsIsExact(disk);
  }

  /** A delete acts on the map as it acts on the document. */
  lemma DeleteShows(docs: Docs, remains: Docs, d: DocName, how: Deletion, f: Stored)
    requires Shows(docs, d, f)
    requires f.hasRows <==> d in remains
    requires f.unsaved == if d in remains then remains[d] else {}
    ensures Shows(DeleteFrom(docs, remains, d, how), d, HappenAll(DeleteEvents(how), f))
    ensures forall x :: x != d ==> (x in DeleteFrom(docs, remains, d, how) <==> x in docs)
                                   && (x in docs ==> DeleteFrom(docs, remains, d, how)[x] == docs[x])
  {
    HappenOne(Clear, f);
    HappenOne(Tear, f);
  }

  /** What a share does to the stored documents, for every way its storage calls can end. */
  lemma ShareView(config: Config, s: State, op: Operation, out: Outcome, s': State)
    requires Sound(s) && op.Share? && Step(config, s, op, out, s')
    ensures out.reply.Done? <==> op.update.Ops? && !op.f.append && !op.f.load
    ensures s'.docs.Keys <= s.docs.Keys + {op.d}
    ensures View(s'.disk) == if op.update.Ops? then ShareInto(View(s.disk), Remains(s.disk), op.d, op.update.ops, op.f)
                             else View(s.disk)
    ensures forall x :: x != op.d ==> s'.disk.At(x) == s.disk.At(x)
  {
    hide Disk.At, View, Remains, Step, Sound, HappenAll, DeleteFrom, DeleteEvents;
    ShareReply(config, s, op, out, s');
    forall x | x != op.d ensures s'.disk.At(x) == s.disk.At(x) {
      DocStoreRuns.ShareEffect(config, s, op, out, s', x);
      assert DocStoreRuns.Trace(op, out, x) == [];
      DocStoreRuns.NoEvents(s.disk.At(x));
    }
    DocStoreRuns.ShareEffect(config, s, op, out, s', op.d);
    DiskShows(s.disk, op.d);
    var f := s.disk.At(op.d);
    if op.update.Ops? {
      var how := op.f.delete;
      var kept := HappenAll(DeleteEvents(how), f);
      DeleteShows(View(s.disk), Remains(s.disk), op.d, how, f);
      DocStoreRuns.HappenConcat(DeleteEvents(how), DocStoreRuns.LogEvents(op, op.d), f);
      HappenOne(Log(op.update.ops), kept);
      DocStoreRuns.NoEvents(kept);
      ViewsDiffer(s.disk, s'.disk, op.d, ShareInto(View(s.disk), Remains(s.disk), op.d, op.update.ops, op.f));
    } else {
      assert DocStoreRuns.Trace(op, out, op.d) == [];
      DocStoreRuns.NoEvents(f);
      ViewsDiffer(s.disk, s'.disk, op.d, View(s.disk));
    }
  }

  /** What a delete does to the stored documents, whole, refused or torn. */
  lemma DeleteView(config: Config, s: State, op: Operation, out: Outcome, s': State)
    requires Sound(s) && op.Delete? && Step(config, s, op, out, s')
    ensures View(s'.disk) == DeleteFrom(View(s.disk), Remains(s.disk), op.d, op.how)
    ensures s'.docs.Keys <= s.docs.Keys
    ensures forall x :: x != op.d ==> s'.disk.At(x) == s.disk.At(x)
  {
    hide Disk.At, View, Remains, Sound, HappenAll, DeleteFrom;
    DocStoreRuns.ClearedEvent(s, op.d, op.how);
    DiskShows(s.disk, op.d);
    DeleteShows(View(s.disk), Remains(s.disk), op.d, op.how, s.disk.At(op.d));
    ViewsDiffer(s.disk, s'.disk, op.d, DeleteFrom(View(s.disk), Remains(s.disk), op.d, op.how));
  }
}
