/**
 The document store: an in-memory working set of CRDT documents over the persistence
 backend, with lazy reload, least-recently-used eviction, idle eviction, compaction and
 replace-on-share.

 Operations are atomic here; `LogSteps` takes the write path apart. Every storage call
 that can fail has a flag saying whether it does, so each contract covers the error
 paths too. Time is a number the caller passes in.
 */
module DocStores {
  import opened Basics
  import opened DocNames
  import opened Storage

  datatype Entry = Entry(sync: Doc, walSeq: nat, updateCount: nat, lastActivity: nat, clients: nat)

  type Resident = map<DocName, Entry>

  /** Update bytes as the validator sees them. */
  datatype Update = Malformed | Ops(ops: Doc)

  datatype StoreError = InvalidUpdate | StorageFault | DurableDocMissing

  /** Which storage calls of one operation fail, and how its delete ends. */
  datatype Faults = Faults(append: bool, load: bool, compact: bool, delete: Deletion)

  const NO_FAULTS := Faults(false, false, false, Deleted)

  function Elapsed(now: nat, since: nat): nat {
    if now > since then now - since else 0
  }

  function Connected(docs: Resident): set<DocName> {
    set d | d in docs && docs[d].clients != 0
  }

  predicate AllConnected(docs: Resident) {
    forall d :: d in docs ==> docs[d].clients != 0
  }

  /** `v` has no client, and no document without a client was active longer ago. */
  predicate LeastRecentlyActive(docs: Resident, v: DocName) {
    && v in docs
    && docs[v].clients == 0
    && forall x :: x in docs && docs[x].clients == 0 ==> docs[v].lastActivity <= docs[x].lastActivity
  }

  method PickLruEvictable(docs: Resident) returns (victim: Option<DocName>)
    ensures victim.None? <==> AllConnected(docs)
    ensures victim.Some? ==> LeastRecentlyActive(docs, victim.value)
  {
    victim := None;
    var todo := docs.Keys;
    while todo != {}
      invariant todo <= docs.Keys
      invariant victim.None? ==> forall x :: x in docs && x !in todo ==> docs[x].clients != 0
      invariant victim.Some? ==> victim.value in docs && docs[victim.value].clients == 0
      invariant victim.Some? ==>
                  forall x :: x in docs && x !in todo && docs[x].clients == 0 ==>
                                docs[victim.value].lastActivity <= docs[x].lastActivity
    {
      var name :| name in todo;
      todo := todo - {name};
      if docs[name].clients == 0 {
        if victim.None? || docs[name].lastActivity < docs[victim.value].lastActivity {
          victim := Some(name);
        }
      }
    }
  }

  function Without(docs: Resident, victim: Option<DocName>): Resident {
    if victim.Some? then docs - {victim.value} else docs
  }

  /** The working set after making room and putting `e` at `d`. */
  function Installed(docs: Resident, victim: Option<DocName>, d: DocName, e: Entry): Resident {
    Without(docs, victim)[d := e]
  }

  /** Which document, if any, leaves memory when `d` is got under the cap. */
  predicate EvictionRule(docs: Resident, cap: nat, d: DocName, victim: Option<DocName>) {
    if d in docs || cap == 0 || |docs| < cap then victim.None?
    else if victim.Some? then LeastRecentlyActive(docs, victim.value)
    else AllConnected(docs)
  }

  /** Growth one operation may cause: to the cap, or to one above the connected documents. */
  predicate GrowthBounded(before: Resident, after: Resident, cap: nat) {
    cap > 0 ==> |after| <= Max(|before|, Max(cap, 1 + |Connected(before)|))
  }

  lemma RemoveOne(docs: Resident, v: DocName)
    requires v in docs
    ensures |docs - {v}| == |docs| - 1
  {
    assert (docs - {v}).Keys == docs.Keys - {v};
    assert docs.Keys == (docs.Keys - {v}) + {v};
  }

  lemma InsertOne(docs: Resident, d: DocName, e: Entry)
    ensures |docs[d := e]| == |docs| + (if d in docs then 0 else 1)
  {
    assert docs[d := e].Keys == docs.Keys + {d};
  }

  lemma InstallGrowth(docs: Resident, cap: nat, d: DocName, victim: Option<DocName>, e: Entry)
    requires EvictionRule(docs, cap, d, victim)
    ensures GrowthBounded(docs, Installed(docs, victim, d, e), cap)
    ensures GrowthBounded(docs, Without(docs, victim), cap)
  {
    InsertOne(Without(docs, victim), d, e);
    if victim.Some? {
      RemoveOne(docs, victim.value);
    } else if AllConnected(docs) {
      assert Connected(docs) == docs.Keys;
    }
  }

  lemma RemovalGrowth(docs: Resident, gone: set<DocName>, cap: nat)
    ensures |docs - gone| <= |docs|
    ensures |Connected(docs - gone)| <= |Connected(docs)|
  {
    assert (docs - gone).Keys <= docs.Keys;
    SubsetSize((docs - gone).Keys, docs.Keys);
    SubsetSize(Connected(docs - gone), Connected(docs));
  }

  function LastId(rows: seq<WalEntry>): nat {
    if rows == [] then 0 else rows[|rows| - 1].id
  }

  /** The store as a value: database, working set, change feed. */
  datatype State = State(disk: Disk, docs: Resident, feed: seq<DocName>)

  /** The entry is what storage would rebuild, at a log position that covers every row. */
  ghost predicate Fits(e: Entry, disk: Disk, d: DocName) {
    && e.sync == disk.Content(d)
    && e.walSeq < disk.nextId
    && forall r :: r in disk.Rows(d) ==> r.id <= e.walSeq
  }

  /** Memory agrees with what storage would rebuild. */
  ghost predicate Coherent(docs: Resident, disk: Disk) {
    forall d :: d in docs ==> Fits(docs[d], disk, d)
  }

  ghost predicate Sound(s: State) {
    s.disk.Wf() && Coherent(s.docs, s.disk)
  }

  /** The entry an access to `d` works on: the resident one, or one rebuilt from storage. */
  ghost function EntryOf(docs: Resident, disk: Disk, d: DocName, now: nat): Entry {
    if d in docs then docs[d]
    else Entry(disk.Content(d), LastId(After(disk.Rows(d), disk.Cutoff(d))), 0, now, 0)
  }

  /** An access fails only on a storage fault, or when it would invent a durable document. */
  predicate CanOpen(s: State, d: DocName, mayCreate: bool, loadFails: bool) {
    d in s.docs || (!loadFails && (s.disk.Exists(d) || mayCreate || !Durable(d)))
  }

  function Put(s: State, victim: Option<DocName>, d: DocName, e: Entry): State {
    s.(docs := Installed(s.docs, victim, d, e))
  }

  function Drop(s: State, victim: Option<DocName>): State {
    s.(docs := Without(s.docs, victim))
  }

  /** The entry after `ops` were logged under `id` and applied to `e`. */
  function AppliedEntry(e: Entry, ops: Doc, id: nat, now: nat): Entry {
    Entry(e.sync + ops, id, e.updateCount + 1, now, e.clients)
  }

  /** Append to the log, open, apply. */
  ghost function Write(s: State, d: DocName, ops: Doc, loadFails: bool, victim: Option<DocName>, now: nat): State {
    var logged := s.(disk := s.disk.WalAppend(d, ops));
    if CanOpen(logged, d, true, loadFails)
    then Put(logged, victim, d, AppliedEntry(EntryOf(s.docs, logged.disk, d, now), ops, s.disk.nextId, now))
    else Drop(logged, victim)
  }

  /** Capture `e` at `d`, and unless the storage call fails install it and trim the log. */
  function Compacted(s: State, d: DocName, e: Entry, fails: bool, victim: Option<DocName>): State {
    var captured := Put(s, victim, d, e.(updateCount := 0));
    if fails then captured else captured.(disk := s.disk.Compact(d, e.sync, e.walSeq))
  }

  function Notify(s: State, d: DocName): State {
    s.(feed := s.feed + if Durable(d) then [d] else [])
  }

  datatype Config = Config(compactThreshold: nat, maxDocuments: nat, maxWalEntries: nat)

  predicate CompactionDue(config: Config, updateCount: nat) {
    (config.maxWalEntries > 0 && updateCount >= config.maxWalEntries) || updateCount >= config.compactThreshold
  }

  datatype Operation =
    | Apply(d: DocName, update: Update, f: Faults, now: nat)
    | Share(d: DocName, update: Update, f: Faults, now: nat)
    | Read(d: DocName, authorized: bool, loadFails: bool, now: nat)
    | Compact(d: DocName, loadFails: bool, compactFails: bool, now: nat)
    | Delete(d: DocName, how: Deletion)
    | Track(d: DocName, leaving: bool, loadFails: bool, now: nat)
    | Evict(maxIdle: nat, now: nat, uncompacted: set<DocName>, deletes: DocName -> Deletion)
    | Restart

  datatype Reply = Done | Content(doc: Doc) | Failed(error: StoreError)

  /**
   What a caller sees, which document the cap pushed out, which ones idleness did, and
   which ones had a snapshot installed.
   */
  datatype Outcome = Outcome(reply: Reply, victim: Option<DocName>, evicted: set<DocName>, saved: set<DocName>)

  function Only(reply: Reply, victim: Option<DocName>): Outcome {
    Outcome(reply, victim, {}, {})
  }

  predicate IsIdle(e: Entry, maxIdle: nat, now: nat) {
    e.clients == 0 && Elapsed(now, e.lastActivity) >= maxIdle
  }

  function IdleSet(docs: Resident, maxIdle: nat, now: nat): set<DocName> {
    set d | d in docs && IsIdle(docs[d], maxIdle, now)
  }

  /** Compaction before eviction, as events of `x`. */
  function SaveEvents(x: DocName, saved: set<DocName>): seq<Event> {
    if x in saved then [Save] else []
  }

  /** The delete after eviction, as events of `x`. */
  function DropEvents(x: DocName, evicted: set<DocName>, deletes: DocName -> Deletion): seq<Event> {
    if x in evicted && !Durable(x) then DeleteEvents(deletes(x)) else []
  }

  function Tracked(e: Entry, leaving: bool, now: nat): Entry {
    if leaving then e.(clients := if e.clients > 0 then e.clients - 1 else 0)
    else e.(clients := e.clients + 1, lastActivity := now)
  }

  ghost function OpenReply(s: State, d: DocName, mayCreate: bool, loadFails: bool, now: nat): Result<Entry, StoreError> {
    if CanOpen(s, d, mayCreate, loadFails) then Ok(EntryOf(s.docs, s.disk, d, now))
    else if loadFails then Err(StorageFault)
    else Err(DurableDocMissing)
  }

  /** Memory forgets `d`, and storage as far as the delete gets. */
  function Cleared(s: State, d: DocName, how: Deletion): State {
    State(s.disk.Delete(d, how), s.docs - {d}, s.feed)
  }

  /** The document after compaction and delete on idle eviction. */
  ghost function Evicted(f: Stored, x: DocName, saved: set<DocName>, evicted: set<DocName>, deletes: DocName -> Deletion): Stored {
    HappenAll(DropEvents(x, evicted, deletes), HappenAll(SaveEvents(x, saved), f))
  }

  /** One atomic operation, with its outcome, from one state to the next. */
  ghost predicate Step(config: Config, s: State, op: Operation, out: Outcome, s': State) {
    match op
    case Apply(d, update, f, now) =>
      if update.Malformed? || f.append then
        s' == s && out == Only(Failed(if update.Malformed? then InvalidUpdate else StorageFault), None)
      else
        var w := Write(s, d, update.ops, f.load, out.victim, now);
        && EvictionRule(s.docs, config.maxDocuments, d, out.victim)
        && if d !in s.docs && f.load then s' == w && out == Only(Failed(StorageFault), out.victim)
           else if !CompactionDue(config, w.docs[d].updateCount) then s' == Notify(w, d) && out == Only(Done, out.victim)
           else
             var c := Compacted(w, d, w.docs[d], f.compact, None);
             if f.compact then s' == c && out == Only(Failed(StorageFault), out.victim)
             else s' == Notify(c, d) && out == Outcome(Done, out.victim, {}, {d})
    case Share(d, update, f, now) =>
      if update.Malformed? then s' == s && out == Only(Failed(InvalidUpdate), None)
      else
        var c := Cleared(s, d, f.delete);
        if f.append then s' == c && out == Only(Failed(StorageFault), None)
        else
          var w := Write(c, d, update.ops, f.load, out.victim, now);
          && EvictionRule(c.docs, config.maxDocuments, d, out.victim)
          && if f.load then s' == w && out == Only(Failed(StorageFault), out.victim)
             else
               && s' == Notify(Put(w, None, d, w.docs[d].(updateCount := 1, clients := 1)), d)
               && out == Only(Done, out.victim)
    case Read(d, authorized, loadFails, now) =>
      && EvictionRule(s.docs, config.maxDocuments, d, out.victim)
      && match OpenReply(s, d, authorized, loadFails, now) {
           case Err(e) => s' == Drop(s, out.victim) && out == Only(Failed(e), out.victim)
           case Ok(e) => s' == Put(s, out.victim, d, e) && out == Only(Content(s.disk.Content(d)), out.victim)
         }
    case Compact(d, loadFails, compactFails, now) =>
      && EvictionRule(s.docs, config.maxDocuments, d, out.victim)
      && match OpenReply(s, d, false, loadFails, now) {
           case Err(e) => s' == Drop(s, out.victim) && out == Only(Failed(e), out.victim)
           case Ok(e) =>
             && s' == Compacted(s, d, e, compactFails, out.victim)
             && out == if compactFails then Only(Failed(StorageFault), out.victim) else Outcome(Done, out.victim, {}, {d})
         }
    case Delete(d, how) =>
      s' == Cleared(s, d, how) && out == Only(if how.Deleted? then Done else Failed(StorageFault), None)
    case Track(d, leaving, loadFails, now) =>
      && EvictionRule(s.docs, config.maxDocuments, d, out.victim)
      && match OpenReply(s, d, false, loadFails, now) {
           case Err(e) => s' == Drop(s, out.victim) && out == Only(Failed(e), out.victim)
           case Ok(e) => s' == Put(s, out.victim, d, Tracked(e, leaving, now)) && out == Only(Done, out.victim)
         }
    case Evict(maxIdle, now, uncompacted, deletes) =>
      && out.evicted == IdleSet(s.docs, maxIdle, now)
      && out == Outcome(Done, None, out.evicted, out.evicted - uncompacted)
      && s'.docs == s.docs - out.evicted
      && s'.feed == s.feed
      && s'.disk.Wf()
      && s'.disk.nextId == s.disk.nextId
      && (forall x :: x !in out.evicted ==> s'.disk.Rows(x) == s.disk.Rows(x))
      && forall x :: s'.disk.At(x) == Evicted(s.disk.At(x), x, out.saved, out.evicted, deletes)
    case Restart =>
      s' == s.(docs := map[]) && out == Only(Done, None)
  }

  lemma CoherentWithout(docs: Resident, disk: Disk, gone: set<DocName>)
    requires Coherent(docs, disk)
    ensures Coherent(docs - gone, disk)
  {
  }

  /** Entries of other documents keep fitting when only `d` changes in storage. */
  lemma CoherentElsewhere(docs: Resident, disk: Disk, disk': Disk, d: DocName)
    requires Coherent(docs, disk) && disk.nextId <= disk'.nextId
    requires forall x :: x != d ==> disk'.Content(x) == disk.Content(x) && disk'.Rows(x) == disk.Rows(x)
    ensures Coherent(docs - {d}, disk')
  {
    hide Disk.Content;
  }

  lemma ClearedSound(s: State, d: DocName, how: Deletion)
    requires Sound(s)
    ensures Sound(Cleared(s, d, how))
  {
    hide Disk.Wf, Disk.Content, Coherent;
    DeleteEvent(s.disk, d, how);
    var next := s.disk.Delete(d, how);
    forall x | x != d ensures next.Content(x) == s.disk.Content(x) && next.Rows(x) == s.disk.Rows(x) {
      assert next.At(x) == s.disk.At(x);
    }
    CoherentElsewhere(s.docs, s.disk, next, d);
  }

  lemma OpenedEntry(s: State, d: DocName, now: nat)
    requires Sound(s)
    ensures Fits(EntryOf(s.docs, s.disk, d, now), s.disk, d)
  {
    if d !in s.docs {
      var rows := s.disk.Rows(d);
      AfterKeepsAll(rows, s.disk.Cutoff(d));
      if rows != [] {
        assert rows[|rows| - 1] in s.disk.wal[d];
      }
    }
  }

  lemma PutSound(s: State, victim: Option<DocName>, d: DocName, e: Entry)
    requires s.disk.Wf() && Coherent(s.docs - {d}, s.disk)
    requires Fits(e, s.disk, d)
    ensures Sound(Put(s, victim, d, e))
  {
    hide Disk.Wf, Fits;
    forall x | x in Installed(s.docs, victim, d, e) && x != d
      ensures Fits(Installed(s.docs, victim, d, e)[x], s.disk, x)
    {
      assert x in s.docs - {d};
    }
  }

  lemma DropSound(s: State, victim: Option<DocName>)
    requires Sound(s)
    ensures Sound(Drop(s, victim))
  {
    hide Disk.Wf, Fits;
  }

  /** Whatever leaves memory for it, opening a document keeps the store sound. */
  lemma OpenSound(s: State, victim: Option<DocName>, d: DocName, now: nat)
    requires Sound(s)
    ensures Sound(Put(s, victim, d, EntryOf(s.docs, s.disk, d, now)))
    ensures Sound(Drop(s, victim))
  {
    hide Disk.Wf, Disk.Content, Fits;
    OpenedEntry(s, d, now);
    PutSound(s, victim, d, EntryOf(s.docs, s.disk, d, now));
    DropSound(s, victim);
  }

  /** Installing over an entry just installed is the same as installing once. */
  lemma PutTwice(s: State, victim: Option<DocName>, d: DocName, e: Entry, e': Entry)
    ensures Put(Put(s, victim, d, e), None, d, e') == Put(s, victim, d, e')
    ensures d in s.docs ==> Put(s, None, d, s.docs[d]) == s
  {
    assert Installed(s.docs, victim, d, e)[d := e'] == Installed(s.docs, victim, d, e');
    if d in s.docs {
      assert s.docs[d := s.docs[d]] == s.docs;
    }
  }

  /** An append to a document that is not in memory keeps the store sound. */
  lemma LoggedSound(s: State, d: DocName, ops: Doc)
    requires Sound(s)
    ensures var logged := s.(disk := s.disk.WalAppend(d, ops));
            logged.disk.Wf() && Coherent(logged.docs - {d}, logged.disk) && (d !in s.docs ==> Sound(logged))
  {
    hide Disk.Wf, Disk.Content, Coherent;
    AppendContent(s.disk, d, ops);
    CoherentElsewhere(s.docs, s.disk, s.disk.WalAppend(d, ops), d);
    if d !in s.docs {
      assert s.docs - {d} == s.docs;
    }
  }

  lemma AppliedFits(s: State, d: DocName, ops: Doc, now: nat)
    requires Sound(s)
    ensures var disk := s.disk.WalAppend(d, ops);
            Fits(AppliedEntry(EntryOf(s.docs, disk, d, now), ops, s.disk.nextId, now), disk, d)
  {
    hide Disk.Content;
    AppendContent(s.disk, d, ops);
    forall r | r in s.disk.Rows(d) ensures r.id <= s.disk.nextId {
    }
  }

  lemma WriteSound(s: State, d: DocName, ops: Doc, loadFails: bool, victim: Option<DocName>, now: nat)
    requires Sound(s)
    ensures Sound(Write(s, d, ops, loadFails, victim, now))
  {
    hide Disk.Wf, Disk.Content, Fits, Coherent, EntryOf;
    var logged := s.(disk := s.disk.WalAppend(d, ops));
    LoggedSound(s, d, ops);
    AppliedFits(s, d, ops, now);
    PutSound(logged, victim, d, AppliedEntry(EntryOf(s.docs, logged.disk, d, now), ops, s.disk.nextId, now));
    if d !in s.docs {
      DropSound(logged, victim);
    }
  }

  /** A compaction that succeeds saves the document; either way the store stays sound. */
  lemma CompactedSound(s: State, d: DocName, e: Entry, fails: bool, victim: Option<DocName>)
    requires Sound(s) && Fits(e, s.disk, d)
    ensures Sound(Compacted(s, d, e, fails, victim))
    ensures forall x :: Compacted(s, d, e, fails, victim).disk.At(x)
                     == if x == d && !fails then Happen(Save, s.disk.At(x)) else s.disk.At(x)
  {
    hide Disk.Wf, Disk.Content, Coherent;
    CompactEvent(s.disk, d, e.sync, e.walSeq);
    var s' := if fails then s else s.(disk := s.disk.Compact(d, e.sync, e.walSeq));
    forall x | x != d ensures s'.disk.Content(x) == s.disk.Content(x) && s'.disk.Rows(x) == s.disk.Rows(x) {
      assert s'.disk.At(x) == s.disk.At(x);
    }
    assert s'.disk.Content(d) == s.disk.Content(d) by {
      assert s'.disk.At(d).content == s.disk.At(d).content;
    }
    CoherentElsewhere(s.docs, s.disk, s'.disk, d);
    PutSound(s', victim, d, e.(updateCount := 0));
  }

  class DocStore {
    var disk: Disk
    var docs: Resident
    /** The change feed: names of durable documents whose mutation succeeded. */
    var feed: seq<DocName>
    const config: Config

    ghost function Now(): State
      reads this
    {
      State(disk, docs, feed)
    }

    ghost predicate Valid()
      reads this
    {
      Sound(Now())
    }

    constructor (disk: Disk, config: Config)
      requires disk.Wf()
      ensures Valid() && Now() == State(disk, map[], []) && this.config == config
    {
      this.disk := disk;
      this.docs := map[];
      this.feed := [];
      this.config := config;
    }

    /** Make room under the cap before `d` is loaded. */
    method MakeRoom(d: DocName) returns (victim: Option<DocName>)
      requires d !in docs
      modifies this`docs
      ensures EvictionRule(old(docs), config.maxDocuments, d, victim)
      ensures Now() == Drop(old(Now()), victim)
    {
      hide LeastRecentlyActive, AllConnected;
      victim := None;
      if config.maxDocuments > 0 && |docs| >= config.maxDocuments {
        victim := PickLruEvictable(docs);
        if victim.Some? {
          docs := docs - {victim.value};
        }
      }
    }

    /** Get a document, loading it from storage or creating it when that is allowed. */
    method GetOrCreateWith(d: DocName, mayCreate: bool, loadFails: bool, now: nat)
      returns (r: Result<Entry, StoreError>, victim: Option<DocName>)
      requires Valid()
      modifies this`docs
      ensures Valid()
      ensures EvictionRule(old(docs), config.maxDocuments, d, victim)
      ensures r == OpenReply(old(Now()), d, mayCreate, loadFails, now)
      ensures Now() == if r.Ok? then Put(old(Now()), victim, d, r.value) else Drop(old(Now()), victim)
    {
      hide Disk.Wf, Disk.Content, Disk.Exists, Coherent, LeastRecentlyActive, AllConnected;
      if d in docs {
        PutTwice(Now(), None, d, docs[d], docs[d]);
        return Ok(docs[d]), None;
      }
      victim := MakeRoom(d);
      OpenSound(old(Now()), victim, d, now);
      r := LoadEntry(disk, d, mayCreate, loadFails, now);
      if r.Ok? {
        docs := docs[d := r.value];
      }
    }

    /** Read a document's full state. */
    method EncodeState(d: DocName, authorized: bool, loadFails: bool, now: nat) returns (out: Outcome)
      requires Valid()
      modifies this`docs
      ensures Valid() && Step(config, old(Now()), Read(d, authorized, loadFails, now), out, Now())
    {
      OpenedEntry(Now(), d, now);
      var r, victim := GetOrCreateWith(d, authorized, loadFails, now);
      out := Only(match r case Ok(e) => Content(e.sync) case Err(e) => Failed(e), victim);
    }

    /** Capture the document, then install the capture as its snapshot and trim the log. */
    method CompactDoc(d: DocName, loadFails: bool, compactFails: bool, now: nat) returns (out: Outcome)
      requires Valid()
      modifies this`docs, this`disk
      ensures Valid() && Step(config, old(Now()), Compact(d, loadFails, compactFails, now), out, Now())
    {
      hide Disk.Wf, Disk.Content, Coherent, EvictionRule;
      OpenedEntry(Now(), d, now);
      var r, victim := GetOrCreateWith(d, false, loadFails, now);
      if r.Err? {
        return Only(Failed(r.error), victim);
      }
      var e := r.value;
      PutTwice(old(Now()), victim, d, e, e.(updateCount := 0));
      CompactedSound(old(Now()), d, e, compactFails, victim);
      docs := docs[d := e.(updateCount := 0)];
      if compactFails {
        return Only(Failed(StorageFault), victim);
      }
      disk := disk.Compact(d, e.sync, e.walSeq);
      out := Outcome(Done, victim, {}, {d});
    }

    /** Emit a durable document's name to the change feed. */
    method EmitChange(d: DocName)
      modifies this`feed
      ensures Now() == Notify(old(Now()), d)
    {
      if Durable(d) {
        feed := feed + [d];
      }
    }

    /** The log-first core of a write: append, open, apply. */
    method LogAndApply(d: DocName, ops: Doc, loadFails: bool, now: nat)
      returns (ok: bool, victim: Option<DocName>)
      requires Valid()
      modifies this`docs, this`disk
      ensures Valid()
      ensures EvictionRule(old(docs), config.maxDocuments, d, victim)
      ensures ok == (d in old(docs) || !loadFails)
      ensures Now() == Write(old(Now()), d, ops, loadFails, victim, now)
    {
      hide Disk.Wf, Disk.Content, Disk.Exists, Disk.WalAppend, Coherent, LeastRecentlyActive, AllConnected;
      var id := disk.nextId;
      disk := disk.WalAppend(d, ops);
      if d in docs {
        WriteSound(old(Now()), d, ops, loadFails, None, now);
        docs := docs[d := AppliedEntry(docs[d], ops, id, now)];
        return true, None;
      }
      ghost var logged := Now();
      LoggedSound(old(Now()), d, ops);
      var r;
      r, victim := GetOrCreateWith(d, true, loadFails, now);
      WriteSound(old(Now()), d, ops, loadFails, victim, now);
      if r.Err? {
        return false, victim;
      }
      PutTwice(logged, victim, d, r.value, AppliedEntry(r.value, ops, id, now));
      docs := docs[d := AppliedEntry(r.value, ops, id, now)];
      ok := true;
    }

    /** Validate, append to the log, apply in memory, compact when due, notify. */
    method ApplyUpdate(d: DocName, update: Update, f: Faults, now: nat) returns (out: Outcome)
      requires Valid()
      modifies this
      ensures Valid() && Step(config, old(Now()), Apply(d, update, f, now), out, Now())
    {
      hide Disk.Wf, Disk.Content, Disk.WalAppend, Disk.Compact, Coherent, LeastRecentlyActive, AllConnected;
      if update.Malformed? {
        return Only(Failed(InvalidUpdate), None);
      }
      if f.append {
        return Only(Failed(StorageFault), None);
      }
      var ok, victim := LogAndApply(d, update.ops, f.load, now);
      if !ok {
        return Only(Failed(StorageFault), victim);
      }
      var due := CompactionDue(config, docs[d].updateCount);
      if due {
        var compacted := CompactDoc(d, false, f.compact, now);
        if compacted.reply.Failed? {
          return Only(Failed(StorageFault), victim);
        }
      }
      EmitChange(d);
      out := Outcome(Done, victim, {}, if due then {d} else {});
    }

    /** Replace a document: delete the old one, log and apply the new state. */
    method ShareDoc(d: DocName, update: Update, f: Faults, now: nat) returns (out: Outcome)
      requires Valid()
      modifies this
      ensures Valid() && Step(config, old(Now()), Share(d, update, f, now), out, Now())
    {
      hide Disk.Wf, Disk.Content, Disk.WalAppend, Disk.Delete, Coherent, EvictionRule;
      if update.Malformed? {
        return Only(Failed(InvalidUpdate), None);
      }
      ClearedSound(Now(), d, f.delete);
      disk := disk.Delete(d, f.delete);
      docs := docs - {d};
      if f.append {
        return Only(Failed(StorageFault), None);
      }
      ghost var cleared := Now();
      var ok, victim := LogAndApply(d, update.ops, f.load, now);
      if !ok {
        return Only(Failed(StorageFault), victim);
      }
      OpenedEntry(Now(), d, now);
      CoherentWithout(docs, disk, {d});
      PutSound(Now(), None, d, docs[d].(updateCount := 1, clients := 1));
      docs := docs[d := docs[d].(updateCount := 1, clients := 1)];
      EmitChange(d);
      out := Only(Done, victim);
    }

    /** Delete a document from memory, then from storage. */
    method DeleteDoc(d: DocName, how: Deletion) returns (out: Outcome)
      requires Valid()
      modifies this`docs, this`disk
      ensures Valid() && Step(config, old(Now()), Delete(d, how), out, Now())
    {
      hide Disk.Wf, Disk.Delete, Coherent;
      ClearedSound(Now(), d, how);
      docs := docs - {d};
      disk := disk.Delete(d, how);
      out := Only(if how.Deleted? then Done else Failed(StorageFault), None);
    }

    /** A client connects to, or with `leaving` disconnects from, a document. */
    method TrackClient(d: DocName, leaving: bool, loadFails: bool, now: nat) returns (out: Outcome)
      requires Valid()
      modifies this`docs
      ensures Valid() && Step(config, old(Now()), Track(d, leaving, loadFails, now), out, Now())
    {
      hide Disk.Wf, Disk.Content, EvictionRule;
      OpenedEntry(Now(), d, now);
      var r, victim := GetOrCreateWith(d, false, loadFails, now);
      if r.Err? {
        return Only(Failed(r.error), victim);
      }
      var e := Tracked(r.value, leaving, now);
      PutTwice(old(Now()), victim, d, r.value, e);
      PutSound(old(Now()), victim, d, e);
      docs := docs[d := e];
      out := Only(Done, victim);
    }

    /** Drop idle documents from memory; delete the ephemeral ones from storage as well. */
    method EvictIdle(maxIdle: nat, now: nat, uncompacted: set<DocName>, deletes: DocName -> Deletion)
      returns (out: Outcome)
      requires Valid()
      modifies this`docs, this`disk
      ensures Valid() && Step(config, old(Now()), Evict(maxIdle, now, uncompacted, deletes), out, Now())
    {
      hide Disk.Wf, Disk.At, Coherent, SaveEvents, DropEvents;
      var evicted := IdleSet(docs, maxIdle, now);
      CompactIdle(evicted, uncompacted, now);
      // The re-check under the write lock finds the same documents idle.
      var idle := set d | d in docs && d in evicted && IsIdle(docs[d], maxIdle, now);
      assert idle == evicted;
      CoherentWithout(docs, disk, evicted);
      docs := docs - evicted;
      DeleteEphemeral(evicted, deletes);
      out := Outcome(Done, None, evicted, evicted - uncompacted);
    }

    /** Compact every document about to be evicted; a failure is only logged. */
    method CompactIdle(evicted: set<DocName>, uncompacted: set<DocName>, now: nat)
      requires Valid() && evicted <= docs.Keys
      modifies this`docs, this`disk
      ensures Valid()
      ensures docs.Keys == old(docs).Keys
      ensures forall x :: x in docs ==> docs[x] == old(docs)[x] || docs[x] == old(docs)[x].(updateCount := 0)
      ensures forall x :: x in docs && x !in evicted ==> docs[x] == old(docs)[x]
      ensures disk.nextId == old(disk).nextId
      ensures forall x :: x !in evicted ==> disk.Rows(x) == old(disk).Rows(x)
      ensures forall x :: disk.At(x) == HappenAll(SaveEvents(x, evicted - uncompacted), old(disk).At(x))
    {
      hide Disk.Wf, Disk.At, Coherent, Fits;
      var todo := evicted;
      while todo != {}
        invariant todo <= evicted
        invariant Valid()
        invariant docs.Keys == old(docs).Keys
        invariant forall x :: x in docs ==> docs[x] == old(docs)[x] || docs[x] == old(docs)[x].(updateCount := 0)
        invariant forall x :: x in docs && x !in evicted ==> docs[x] == old(docs)[x]
        invariant disk.nextId == old(disk).nextId
        invariant forall x :: x !in evicted ==> disk.Rows(x) == old(disk).Rows(x)
        invariant forall x :: disk.At(x) == HappenAll(SaveEvents(x, evicted - todo - uncompacted), old(disk).At(x))
      {
        var name :| name in todo;
        ghost var before := Now();
        var _ := CompactDoc(name, false, name in uncompacted, now);
        OpenedEntry(before, name, now);
        CompactedSound(before, name, before.docs[name], name in uncompacted, None);
        HappenOne(Save, before.disk.At(name));
        todo := todo - {name};
      }
    }

    /** Delete the evicted ephemeral documents from storage; a failure is only logged. */
    method DeleteEphemeral(evicted: set<DocName>, deletes: DocName -> Deletion)
      requires Valid() && docs.Keys !! evicted
      modifies this`disk
      ensures Valid() && disk.nextId == old(disk).nextId
      ensures forall x :: x !in evicted ==> disk.Rows(x) == old(disk).Rows(x)
      ensures forall x :: disk.At(x) == HappenAll(DropEvents(x, evicted, deletes), old(disk).At(x))
    {
      hide Disk.Wf, Disk.At, Coherent;
      var todo := evicted;
      while todo != {}
        invariant todo <= evicted
        invariant Valid() && disk.nextId == old(disk).nextId
        invariant forall x :: x !in evicted ==> disk.Rows(x) == old(disk).Rows(x)
        invariant forall x :: disk.At(x) == HappenAll(DropEvents(x, evicted - todo, deletes), old(disk).At(x))
      {
        var name :| name in todo;
        if !Durable(name) {
          ClearedSound(Now(), name, deletes(name));
          DeleteEvent(disk, name, deletes(name));
          assert docs - {name} == docs;
          disk := disk.Delete(name, deletes(name));
        }
        todo := todo - {name};
      }
    }

    /** The process stops, cleanly or not, and starts again over the same database. */
    method Reopen() returns (out: Outcome)
      requires Valid()
      modifies this`docs
      ensures Valid() && Step(config, old(Now()), Restart, out, Now())
    {
      docs := map[];
      out := Only(Done, None);
    }
  }

  /** Load a document that is not in memory, or create it when that is allowed. */
  method LoadEntry(disk: Disk, d: DocName, mayCreate: bool, loadFails: bool, now: nat)
    returns (r: Result<Entry, StoreError>)
    requires disk.Wf()
    ensures r == OpenReply(State(disk, map[], []), d, mayCreate, loadFails, now)
  {
    hide Disk.Wf;
    if loadFails {
      return Err(StorageFault);
    }
    ContentIsEverything(disk, d);
    var sync, walSeq := {}, 0;
    match disk.LoadDocument(d) {
      case Some(state) =>
        sync, walSeq := Replay(state);
      case None =>
        if !mayCreate && Durable(d) {
          return Err(DurableDocMissing);
        }
    }
    r := Ok(Entry(sync, walSeq, 0, now, 0));
  }

  /** Rebuild a document from its stored parts. */
  method Replay(state: DocumentState) returns (sync: Doc, lastId: nat)
    ensures sync == (if state.snapshot.Some? then state.snapshot.value else {}) + Join(state.walTail)
    ensures lastId == LastId(state.walTail)
  {
    sync, lastId := if state.snapshot.Some? then state.snapshot.value else {}, 0;
    for i := 0 to |state.walTail|
      invariant sync == (if state.snapshot.Some? then state.snapshot.value else {}) + Join(state.walTail[..i])
      invariant lastId == LastId(state.walTail[..i])
    {
      JoinAppend(state.walTail[..i], state.walTail[i]);
      assert state.walTail[..i + 1] == state.walTail[..i] + [state.walTail[i]];
      sync := sync + state.walTail[i].update;
      lastId := state.walTail[i].id;
    }
    assert state.walTail[..|state.walTail|] == state.walTail;
  }
}
