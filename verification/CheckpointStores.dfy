/**
 Capturing a KB from the document store and restoring one into it.
 */
module CheckpointStores {
  import opened Basics
  import opened DocNames
  import opened Storage
  import opened DocStores
  import opened Checkpoints
  import opened StoreViews
  import DocStoreRuns

  // ---- Sorting ids ----

  /** Byte-wise lexicographic order, the order of Rust strings. */
  predicate LexLe(a: Id, b: Id) {
    a == [] || (b != [] && (a[0] < b[0] || (a[0] == b[0] && LexLe(a[1..], b[1..]))))
  }

  /** `a` and `b` agree before `k`, where `a` is smaller. */
  predicate DiffersAt(a: Id, b: Id, k: nat) {
    k < |a| && k < |b| && a[k] < b[k] && forall i :: 0 <= i < k ==> a[i] == b[i]
  }

  /** Ids are ordered by their first differing byte, and a prefix comes first. */
  lemma {:induction false} LexExact(a: Id, b: Id)
    ensures LexLe(a, b) <==> a <= b || exists k :: DiffersAt(a, b, k)
  {
    if a != [] && b != [] {
      LexExact(a[1..], b[1..]);
      DiffersLater(a, b);
      assert DiffersAt(a, b, 0) <==> a[0] < b[0];
      assert a == [a[0]] + a[1..] && b == [b[0]] + b[1..];
    }
  }

  lemma DiffersLater(a: Id, b: Id)
    requires a != [] && b != []
    ensures (exists k :: k > 0 && DiffersAt(a, b, k)) <==> a[0] == b[0] && exists k :: DiffersAt(a[1..], b[1..], k)
  {
    if k: nat :| k > 0 && DiffersAt(a, b, k) {
      assert DiffersAt(a[1..], b[1..], k - 1);
    }
    if k: nat :| a[0] == b[0] && DiffersAt(a[1..], b[1..], k) {
      assert forall i :: 0 < i <= k ==> a[i] == a[1..][i - 1] && b[i] == b[1..][i - 1];
      assert DiffersAt(a, b, k + 1);
    }
  }

  lemma {:induction false} LexTotal(a: Id, b: Id)
    ensures LexLe(a, b) || LexLe(b, a)
    ensures LexLe(a, b) && LexLe(b, a) ==> a == b
    decreases |a|
  {
    if a != [] && b != [] && a[0] == b[0] {
      LexTotal(a[1..], b[1..]);
      assert a == [a[0]] + a[1..] && b == [b[0]] + b[1..];
    }
  }

  lemma {:induction false} LexTransitive(a: Id, b: Id, c: Id)
    requires LexLe(a, b) && LexLe(b, c)
    ensures LexLe(a, c)
    decreases |a|
  {
    if a != [] && a[0] == b[0] && b[0] == c[0] {
      LexTransitive(a[1..], b[1..], c[1..]);
    }
  }

  function Insert(x: Id, s: seq<Id>): seq<Id> {
    if s == [] || LexLe(x, s[0]) then [x] + s else [s[0]] + Insert(x, s[1..])
  }

  function Sort(s: seq<Id>): seq<Id> {
    if s == [] then [] else Insert(s[0], Sort(s[1..]))
  }

  predicate Sorted(s: seq<Id>) {
    forall i, j :: 0 <= i < j < |s| ==> LexLe(s[i], s[j])
  }

  lemma {:induction false} InsertKeeps(x: Id, s: seq<Id>)
    ensures multiset(Insert(x, s)) == multiset(s) + multiset{x}
    ensures forall y :: y in Insert(x, s) <==> y in s || y == x
  {
    hide LexLe;
    if s != [] && !LexLe(x, s[0]) {
      InsertKeeps(x, s[1..]);
      assert s == [s[0]] + s[1..];
    }
  }

  lemma ConsSorted(x: Id, s: seq<Id>)
    requires Sorted(s) && forall y :: y in s ==> LexLe(x, y)
    ensures Sorted([x] + s)
  {
    hide LexLe;
  }

  lemma {:induction false} InsertSorted(x: Id, s: seq<Id>)
    requires Sorted(s)
    ensures Sorted(Insert(x, s))
  {
    hide LexLe;
    if s == [] {
    } else if LexLe(x, s[0]) {
      forall y | y in s ensures LexLe(x, y) {
        var i :| 0 <= i < |s| && s[i] == y;
        if i > 0 {
          LexTransitive(x, s[0], s[i]);
        }
      }
      ConsSorted(x, s);
    } else {
      InsertSorted(x, s[1..]);
      InsertKeeps(x, s[1..]);
      LexTotal(x, s[0]);
      forall y | y in s[1..] ensures LexLe(s[0], y) {
        var i :| 0 <= i < |s[1..]| && s[1..][i] == y;
        assert y == s[i + 1];
      }
      ConsSorted(s[0], Insert(x, s[1..]));
    }
  }

  lemma {:induction false} SortSorts(s: seq<Id>)
    ensures Sorted(Sort(s)) && multiset(Sort(s)) == multiset(s)
  {
    if s != [] {
      SortSorts(s[1..]);
      InsertSorted(s[0], Sort(s[1..]));
      InsertKeeps(s[0], Sort(s[1..]));
      assert s == [s[0]] + s[1..];
    }
  }

  lemma SortedHeads(a: seq<Id>, b: seq<Id>)
    requires Sorted(a) && Sorted(b) && a != [] && b != [] && a[0] in b && b[0] in a
    ensures a[0] == b[0]
  {
    LexTotal(a[0], a[0]);
    LexTotal(a[0], b[0]);
    var i :| 0 <= i < |b| && b[i] == a[0];
    var j :| 0 <= j < |a| && a[j] == b[0];
    assert i > 0 ==> LexLe(b[0], b[i]);
    assert j > 0 ==> LexLe(a[0], a[j]);
  }

  lemma {:induction false} SortedUnique(a: seq<Id>, b: seq<Id>)
    requires Sorted(a) && Sorted(b) && multiset(a) == multiset(b)
    ensures a == b
    decreases |a|
  {
    hide LexLe;
    assert |a| == |multiset(a)| == |multiset(b)| == |b|;
    if a != [] {
      assert a[0] in multiset(b) && b[0] in multiset(a);
      SortedHeads(a, b);
      assert a == [a[0]] + a[1..] && b == [b[0]] + b[1..];
      assert multiset(a[1..]) == multiset(a) - multiset{a[0]};
      assert multiset(b[1..]) == multiset(b) - multiset{b[0]};
      SortedUnique(a[1..], b[1..]);
    }
  }

  // ---- Capture and restore over a map of documents ----

  /**
   The CRDT library as seen from here: full-state encoding, update decoding, and the node
   ids a collection document lists, in the library's own order.
   */
  datatype Codec = Codec(encode: Doc -> Bytes, decode: Bytes -> Update, list: Doc -> Option<seq<Id>>)

  /** A full state applied to an empty document gives that document back. */
  ghost predicate Lawful(codec: Codec) {
    forall doc :: codec.decode(codec.encode(doc)) == Ops(doc)
  }

  datatype CaptureError = Missing(d: DocName) | BadCollection

  function CaptureNodes(codec: Codec, docs: Docs, kb: Id, ids: seq<Id>): Result<seq<(Id, Bytes)>, CaptureError> {
    if ids == [] then Ok([])
    else
      var d := KbNode(kb, ids[0]);
      if d !in docs then Err(Missing(d))
      else
        match CaptureNodes(codec, docs, kb, ids[1..])
        case Err(e) => Err(e)
        case Ok(rest) => Ok([(ids[0], codec.encode(docs[d]))] + rest)
  }

  function Capture(codec: Codec, hash: Hash, docs: Docs, kb: Id): Result<Checkpoint, CaptureError> {
    if KbCollection(kb) !in docs then Err(Missing(KbCollection(kb)))
    else
      var coll := docs[KbCollection(kb)];
      match codec.list(coll)
      case None => Err(BadCollection)
      case Some(ids) =>
        match CaptureNodes(codec, docs, kb, Sort(ids))
        case Err(e) => Err(e)
        case Ok(nodes) =>
          Ok(Checkpoint(kb, codec.encode(coll), nodes, hash(Frame(kb, codec.encode(coll), nodes))))
  }

  /** Write the nodes in order until one is malformed; the flag says whether all were written. */
  function RestoreNodes(codec: Codec, docs: Docs, kb: Id, nodes: seq<(Id, Bytes)>): (Docs, bool)
    decreases |nodes|
  {
    if nodes == [] then (docs, true)
    else
      match codec.decode(nodes[0].1)
      case Malformed => (docs, false)
      case Ops(ops) => RestoreNodes(codec, docs[KbNode(kb, nodes[0].0) := ops], kb, nodes[1..])
  }

  function Restore(codec: Codec, docs: Docs, cp: Checkpoint): (Docs, bool) {
    match codec.decode(cp.collectionState)
    case Malformed => (docs, false)
    case Ops(ops) => RestoreNodes(codec, docs[KbCollection(cp.kbId) := ops], cp.kbId, cp.nodes)
  }

  /** A captured checkpoint does not depend on the order in which the manifest lists its nodes. */
  lemma CaptureIgnoresListOrder(codec: Codec, codec': Codec, hash: Hash, docs: Docs, kb: Id)
    requires codec'.encode == codec.encode
    requires forall doc :: codec'.list(doc).Some? <==> codec.list(doc).Some?
    requires forall doc :: codec.list(doc).Some? ==> multiset(codec'.list(doc).value) == multiset(codec.list(doc).value)
    ensures Capture(codec', hash, docs, kb) == Capture(codec, hash, docs, kb)
  {
    hide Frame, Sort;
    if KbCollection(kb) in docs && codec.list(docs[KbCollection(kb)]).Some? {
      var ids, ids' := codec.list(docs[KbCollection(kb)]).value, codec'.list(docs[KbCollection(kb)]).value;
      SortSorts(ids);
      SortSorts(ids');
      SortedUnique(Sort(ids), Sort(ids'));
      SameEncoding(codec, codec', docs, kb, Sort(ids));
    }
  }

  lemma {:induction false} SameEncoding(codec: Codec, codec': Codec, docs: Docs, kb: Id, ids: seq<Id>)
    requires codec'.encode == codec.encode
    ensures CaptureNodes(codec', docs, kb, ids) == CaptureNodes(codec, docs, kb, ids)
    decreases |ids|
  {
    if ids != [] {
      SameEncoding(codec, codec', docs, kb, ids[1..]);
    }
  }

  lemma {:induction false} CapturedNodes(codec: Codec, docs: Docs, kb: Id, ids: seq<Id>)
    requires CaptureNodes(codec, docs, kb, ids).Ok?
    ensures var nodes := CaptureNodes(codec, docs, kb, ids).value;
            && |nodes| == |ids|
            && forall i :: 0 <= i < |ids| ==>
                 KbNode(kb, ids[i]) in docs && nodes[i] == (ids[i], codec.encode(docs[KbNode(kb, ids[i])]))
    decreases |ids|
  {
    if ids != [] {
      CapturedNodes(codec, docs, kb, ids[1..]);
      var rest := CaptureNodes(codec, docs, kb, ids[1..]).value;
      forall i | 0 < i < |ids|
        ensures KbNode(kb, ids[i]) in docs
        ensures CaptureNodes(codec, docs, kb, ids).value[i] == (ids[i], codec.encode(docs[KbNode(kb, ids[i])]))
      {
        assert ids[i] == ids[1..][i - 1];
      }
    }
  }

  /** Names outside the artifact are untouched; names inside hold the source's documents. */
  lemma {:induction false} RestoredNodes(codec: Codec, src: Docs, dst: Docs, kb: Id, ids: seq<Id>)
    requires Lawful(codec) && CaptureNodes(codec, src, kb, ids).Ok?
    ensures var (docs, ok) := RestoreNodes(codec, dst, kb, CaptureNodes(codec, src, kb, ids).value);
            && ok
            && docs.Keys == dst.Keys + (set i | i in ids :: KbNode(kb, i))
            && (forall i :: i in ids ==> KbNode(kb, i) in src && docs[KbNode(kb, i)] == src[KbNode(kb, i)])
            && (forall d :: d in dst && !(d.KbNode? && d.kb == kb && d.node in ids) ==> docs[d] == dst[d])
    decreases |ids|
  {
    if ids != [] {
      var d := KbNode(kb, ids[0]);
      var nodes := CaptureNodes(codec, src, kb, ids).value;
      assert nodes[1..] == CaptureNodes(codec, src, kb, ids[1..]).value;
      RestoredNodes(codec, src, dst[d := src[d]], kb, ids[1..]);
      assert ids == [ids[0]] + ids[1..];
    }
  }

  lemma {:induction false} SameCapture(codec: Codec, a: Docs, b: Docs, kb: Id, ids: seq<Id>)
    requires forall i :: i in ids ==> KbNode(kb, i) in a && KbNode(kb, i) in b && a[KbNode(kb, i)] == b[KbNode(kb, i)]
    ensures CaptureNodes(codec, a, kb, ids) == CaptureNodes(codec, b, kb, ids)
    decreases |ids|
  {
    if ids != [] {
      assert ids[0] in ids;
      SameCapture(codec, a, b, kb, ids[1..]);
    }
  }

  predicate InArtifact(cp: Checkpoint, d: DocName) {
    || d == KbCollection(cp.kbId)
    || (d.KbNode? && d.kb == cp.kbId && exists i :: 0 <= i < |cp.nodes| && cp.nodes[i].0 == d.node)
  }

  /**
   Export, import, export. Restoring a captured KB into any store succeeds, makes a new
   capture identical to the first, and leaves every other document as it was.
   */
  lemma RestoreThenCapture(codec: Codec, hash: Hash, src: Docs, dst: Docs, kb: Id)
    requires Lawful(codec) && Capture(codec, hash, src, kb).Ok?
    ensures var cp := Capture(codec, hash, src, kb).value;
            var (docs, ok) := Restore(codec, dst, cp);
            && ok
            && Capture(codec, hash, docs, kb) == Ok(cp)
            && (forall d :: !InArtifact(cp, d) ==> (d in docs <==> d in dst) && (d in dst ==> docs[d] == dst[d]))
  {
    hide Frame, Sort;
    var cp := Capture(codec, hash, src, kb).value;
    var coll := src[KbCollection(kb)];
    var ids := Sort(codec.list(coll).value);
    var start := dst[KbCollection(kb) := coll];
    var docs := Restore(codec, dst, cp).0;
    RestoredNodes(codec, src, start, kb, ids);
    CapturedNodes(codec, src, kb, ids);
    SameCapture(codec, src, docs, kb, ids);
    assert docs[KbCollection(kb)] == coll;
    forall d: DocName | d.KbNode? && d.kb == kb && d.node in ids ensures InArtifact(cp, d) {
      var i :| 0 <= i < |ids| && ids[i] == d.node;
      assert cp.nodes[i].0 == d.node;
    }
  }

  /** The same through the artifact's bytes: what is printed is what is restored. */
  lemma ExportImportExport(codec: Codec, hash: Hash, src: Docs, dst: Docs, kb: Id)
    requires Lawful(codec) && Capture(codec, hash, src, kb).Ok?
    requires Good(hash, Capture(codec, hash, src, kb).value) && |Print(Capture(codec, hash, src, kb).value)| < TWO64
    ensures var artifact := Print(Capture(codec, hash, src, kb).value);
            && Checkpoints.Parse(hash, artifact).Ok?
            && var docs := Restore(codec, dst, Checkpoints.Parse(hash, artifact).value).0;
               Capture(codec, hash, docs, kb).Ok? && Print(Capture(codec, hash, docs, kb).value) == artifact
  {
    hide Capture, Restore, Good, Checkpoints.Parse, Print;
    var cp := Capture(codec, hash, src, kb).value;
    ParseExact(hash, Print(cp), cp);
    RestoreThenCapture(codec, hash, src, dst, kb);
  }

  // ---- Over the document store ----

  /** A capture looks at node documents only. */
  lemma {:induction false} NodesOnly(codec: Codec, a: Docs, b: Docs, kb: Id, ids: seq<Id>)
    requires forall n :: (KbNode(kb, n) in a <==> KbNode(kb, n) in b)
                         && (KbNode(kb, n) in a ==> a[KbNode(kb, n)] == b[KbNode(kb, n)])
    ensures CaptureNodes(codec, a, kb, ids) == CaptureNodes(codec, b, kb, ids)
    decreases |ids|
  {
    if ids != [] {
      NodesOnly(codec, a, b, kb, ids[1..]);
    }
  }

  /** Capturing node by node is capturing the list. */
  lemma {:induction false} CapturedInOrder(codec: Codec, docs: Docs, kb: Id, ids: seq<Id>, nodes: seq<(Id, Bytes)>)
    requires |nodes| == |ids|
    requires forall i :: 0 <= i < |ids| ==>
               KbNode(kb, ids[i]) in docs && nodes[i] == (ids[i], codec.encode(docs[KbNode(kb, ids[i])]))
    ensures CaptureNodes(codec, docs, kb, ids) == Ok(nodes)
    decreases |ids|
  {
    if ids != [] {
      CapturedInOrder(codec, docs, kb, ids[1..], nodes[1..]);
      assert nodes == [nodes[0]] + nodes[1..];
    }
  }

  /** A list fails at the first node that is missing. */
  lemma {:induction false} CaptureFails(codec: Codec, docs: Docs, kb: Id, ids: seq<Id>, k: nat)
    requires k < |ids| && KbNode(kb, ids[k]) !in docs
    requires forall i :: 0 <= i < k && ids[i] != ids[k] ==> KbNode(kb, ids[i]) in docs
    ensures CaptureNodes(codec, docs, kb, ids) == Err(Missing(KbNode(kb, ids[k])))
    decreases |ids|
  {
    if ids[0] != ids[k] {
      CaptureFails(codec, docs, kb, ids[1..], k - 1);
    }
  }

  /** Capture a content-hashed checkpoint of a KB from the store: that of the documents it can see. */
  method CheckpointKb(store: DocStore, codec: Codec, hash: Hash, kb: Id, unreadable: set<DocName>, now: nat)
    returns (r: Result<Checkpoint, CaptureError>, ghost seen: Docs)
    requires store.Valid()
    modifies store`docs
    ensures store.Valid()
    ensures SeenBy(old(store.Now()), unreadable, seen)
    ensures r == Capture(codec, hash, seen, kb)
  {
    hide Step, Sound, Frame, Sort, View, Disk.Content, Disk.Exists;
    ViewIsExact(store.disk);
    var name := KbCollection(kb);
    ghost var before := store.Now();
    var out := store.EncodeState(name, false, name in unreadable, now);
    ReadKeepsStored(store.config, before, Read(name, false, name in unreadable, now), out, store.Now());
    if !out.reply.Content? {
      return Err(Missing(name)), View(store.disk) - {name};
    }
    var coll := out.reply.doc;
    seen := View(store.disk)[name := coll];
    var listed := codec.list(coll);
    if listed.None? {
      return Err(BadCollection), seen;
    }
    var ids := Sort(listed.value);
    ghost var nodeDocs;
    var nodes;
    nodes, nodeDocs := CaptureStored(store, codec, kb, ids, unreadable, now);
    seen := nodeDocs[name := coll];
    NodesOnly(codec, nodeDocs, seen, kb, ids);
    match nodes {
      case Err(e) =>
        r := Err(e);
      case Ok(nodes) =>
        var state := codec.encode(coll);
        r := Ok(Checkpoint(kb, state, nodes, hash(Frame(kb, state, nodes))));
    }
  }

  /** Read the listed node documents in order; one that cannot be read fails the capture. */
  method CaptureStored(store: DocStore, codec: Codec, kb: Id, ids: seq<Id>, unreadable: set<DocName>, now: nat)
    returns (r: Result<seq<(Id, Bytes)>, CaptureError>, ghost seen: Docs)
    requires store.Valid()
    modifies store`docs
    ensures store.Valid()
    ensures SeenBy(old(store.Now()), unreadable, seen)
    ensures r == CaptureNodes(codec, seen, kb, ids)
  {
    hide Step, Sound, View, EntryOf, Disk.Content, Disk.Exists;
    seen := View(store.disk);
    ViewIsExact(store.disk);
    var nodes: seq<(Id, Bytes)> := [];
    for i := 0 to |ids|
      invariant store.Valid()
      invariant forall d :: d in store.docs ==> d in old(store.docs) || store.disk.Exists(d)
      invariant SeenBy(old(store.Now()), {}, seen)
      invariant |nodes| == i
      invariant forall j :: 0 <= j < i ==>
                  KbNode(kb, ids[j]) in seen && nodes[j] == (ids[j], codec.encode(seen[KbNode(kb, ids[j])]))
    {
      var name := KbNode(kb, ids[i]);
      ghost var before := store.Now();
      var out := store.EncodeState(name, false, name in unreadable, now);
      ReadKeepsStored(store.config, before, Read(name, false, name in unreadable, now), out, store.Now());
      if !out.reply.Content? {
        seen := seen - {name};
        CaptureFails(codec, seen, kb, ids, i);
        return Err(Missing(name)), seen;
      }
      seen := seen[name := out.reply.doc];
      nodes := nodes + [(ids[i], codec.encode(out.reply.doc))];
    }
    CapturedInOrder(codec, seen, kb, ids, nodes);
    r := Ok(nodes);
  }

  datatype ImportError = Rejected(error: ParseError) | RestoreFailed

  /** The documents an import replaces, in order. */
  function Shares(cp: Checkpoint): seq<(DocName, Bytes)> {
    [(KbCollection(cp.kbId), cp.collectionState)]
    + seq(|cp.nodes|, i requires 0 <= i < |cp.nodes| => (KbNode(cp.kbId, cp.nodes[i].0), cp.nodes[i].1))
  }

  predicate ShareSucceeds(update: Update, f: Faults) {
    update.Ops? && !f.append && !f.load
  }

  /** What one share does to its own document. */
  function ShareEvents(update: Update, f: Faults): seq<Event> {
    if update.Malformed? then [] else DeleteEvents(f.delete) + (if f.append then [] else [Log(update.ops)])
  }

  /** All of `shares` succeed. */
  predicate AllShared(codec: Codec, shares: seq<(DocName, Bytes)>, faults: nat -> Faults) {
    forall i :: 0 <= i < |shares| ==> ShareSucceeds(codec.decode(shares[i].1), faults(i))
  }

  /** What the shares up to the first that fails do to `x`. */
  function ImportEvents(codec: Codec, shares: seq<(DocName, Bytes)>, faults: nat -> Faults, x: DocName): seq<Event> {
    if shares == [] then []
    else
      var n := |shares| - 1;
      ImportEvents(codec, shares[..n], faults, x)
      + if AllShared(codec, shares[..n], faults) && shares[n].0 == x then ShareEvents(codec.decode(shares[n].1), faults(n)) else []
  }

  /**
   Import an artifact: verify it, then replace the collection and every node document.
   A rejected artifact changes nothing; a share that fails stops the import with the
   documents before it already replaced.
   */
  method ImportKb(store: DocStore, codec: Codec, hash: Hash, artifact: Bytes, faults: nat -> Faults, now: nat)
    returns (r: Result<Checkpoint, ImportError>)
    requires store.Valid()
    modifies store
    ensures store.Valid()
    ensures Checkpoints.Parse(hash, artifact).Err? ==>
              r == Err(Rejected(Checkpoints.Parse(hash, artifact).error)) && store.Now() == old(store.Now())
    ensures Checkpoints.Parse(hash, artifact).Ok? ==>
              var cp := Checkpoints.Parse(hash, artifact).value;
              && (forall x :: store.disk.At(x) == HappenAll(ImportEvents(codec, Shares(cp), faults, x), old(store.disk).At(x)))
              && r == if AllShared(codec, Shares(cp), faults) then Ok(cp) else Err(RestoreFailed)
  {
    hide Step, Sound, Checkpoints.Parse, Disk.At, Shares;
    var parsed := FromBytes(hash, artifact);
    if parsed.Err? {
      return Err(Rejected(parsed.error));
    }
    var ok := ShareAll(store, codec, Shares(parsed.value), faults, now);
    r := if ok then Ok(parsed.value) else Err(RestoreFailed);
  }

  /** Share documents in order until one fails. */
  method ShareAll(store: DocStore, codec: Codec, shares: seq<(DocName, Bytes)>, faults: nat -> Faults, now: nat)
    returns (ok: bool)
    requires store.Valid()
    modifies store
    ensures store.Valid()
    ensures ok <==> AllShared(codec, shares, faults)
    ensures forall x :: store.disk.At(x) == HappenAll(ImportEvents(codec, shares, faults, x), old(store.disk).At(x))
  {
    hide Step, Sound, Disk.At, HappenAll, ShareEvents;
    forall x ensures HappenAll(ImportEvents(codec, shares[..0], faults, x), store.disk.At(x)) == store.disk.At(x) {
      DocStoreRuns.NoEvents(store.disk.At(x));
    }
    for i := 0 to |shares|
      invariant store.Valid()
      invariant AllShared(codec, shares[..i], faults)
      invariant forall x :: store.disk.At(x) == HappenAll(ImportEvents(codec, shares[..i], faults, x), old(store.disk).At(x))
    {
      ghost var before := store.disk;
      ok := ShareBytes(store, codec, shares[i].0, shares[i].1, faults(i), now);
      ImportStep(codec, shares, faults, i, old(store.disk), before, store.disk);
      if !ok {
        forall x ensures ImportEvents(codec, shares, faults, x) == ImportEvents(codec, shares[..i + 1], faults, x) {
          ImportStops(codec, shares, faults, i, |shares|, x);
        }
        return;
      }
    }
    assert shares[..|shares|] == shares;
    ok := true;
  }

  lemma ImportStep(codec: Codec, shares: seq<(DocName, Bytes)>, faults: nat -> Faults, i: nat, start: Disk, before: Disk, after: Disk)
    requires i < |shares| && AllShared(codec, shares[..i], faults)
    requires forall x :: before.At(x) == HappenAll(ImportEvents(codec, shares[..i], faults, x), start.At(x))
    requires forall x :: after.At(x) == if x == shares[i].0 then HappenAll(ShareEvents(codec.decode(shares[i].1), faults(i)), before.At(x))
                                        else before.At(x)
    ensures AllShared(codec, shares[..i + 1], faults) <==> ShareSucceeds(codec.decode(shares[i].1), faults(i))
    ensures forall x :: after.At(x) == HappenAll(ImportEvents(codec, shares[..i + 1], faults, x), start.At(x))
  {
    hide Disk.At, HappenAll, ShareEvents, ShareSucceeds;
    assert shares[..i + 1][..i] == shares[..i];
    forall x ensures after.At(x) == HappenAll(ImportEvents(codec, shares[..i + 1], faults, x), start.At(x)) {
      var events := if x == shares[i].0 then ShareEvents(codec.decode(shares[i].1), faults(i)) else [];
      DocStoreRuns.HappenConcat(ImportEvents(codec, shares[..i], faults, x), events, start.At(x));
      DocStoreRuns.NoEvents(before.At(x));
    }
    if AllShared(codec, shares[..i + 1], faults) {
      assert ShareSucceeds(codec.decode(shares[..i + 1][i].1), faults(i));
    }
  }

  /** Nothing after a failed share is written. */
  lemma {:induction false} ImportStops(codec: Codec, shares: seq<(DocName, Bytes)>, faults: nat -> Faults, i: nat, n: nat, x: DocName)
    requires i < n <= |shares| && !ShareSucceeds(codec.decode(shares[i].1), faults(i))
    ensures ImportEvents(codec, shares[..n], faults, x) == ImportEvents(codec, shares[..i + 1], faults, x)
    ensures !AllShared(codec, shares[..n], faults)
    ensures n == |shares| ==> shares[..n] == shares
    decreases n
  {
    hide ShareEvents, ShareSucceeds;
    assert !ShareSucceeds(codec.decode(shares[..n][i].1), faults(i));
    if n > i + 1 {
      ImportStops(codec, shares, faults, i, n - 1, x);
      assert shares[..n][..n - 1] == shares[..n - 1];
      assert ImportEvents(codec, shares[..n], faults, x) == ImportEvents(codec, shares[..n - 1], faults, x) + [];
    }
  }

  method ShareBytes(store: DocStore, codec: Codec, d: DocName, state: Bytes, f: Faults, now: nat) returns (ok: bool)
    requires store.Valid()
    modifies store
    ensures store.Valid()
    ensures ok <==> ShareSucceeds(codec.decode(state), f)
    ensures forall x :: store.disk.At(x) == if x == d then HappenAll(ShareEvents(codec.decode(state), f), old(store.disk).At(x))
                                            else old(store.disk).At(x)
  {
    hide Step, Sound, Disk.At, HappenAll;
    var op := Share(d, codec.decode(state), f, now);
    ghost var before := store.Now();
    var out := store.ShareDoc(d, codec.decode(state), f, now);
    ShareReply(store.config, before, op, out, store.Now());
    forall x ensures store.disk.At(x) == HappenAll(DocStoreRuns.Trace(op, out, x), before.disk.At(x)) {
      DocStoreRuns.ShareEffect(store.config, before, op, out, store.Now(), x);
    }
    forall x | x != d ensures store.disk.At(x) == before.disk.At(x) {
      DocStoreRuns.NoEvents(before.disk.At(x));
      assert DocStoreRuns.Trace(op, out, x) == [];
    }
    assert DocStoreRuns.Trace(op, out, d) == ShareEvents(codec.decode(state), f);
    ok := out.reply.Done?;
  }

  // ---- Imports without faults ----

  predicate SameDoc(docs: Docs, f: Stored, x: DocName) {
    (x in docs <==> f.present) && (x in docs ==> docs[x] == f.content)
  }

  lemma {:induction false} RestoreSnoc(codec: Codec, docs: Docs, kb: Id, nodes: seq<(Id, Bytes)>, last: (Id, Bytes))
    ensures var (before, ok) := RestoreNodes(codec, docs, kb, nodes);
            RestoreNodes(codec, docs, kb, nodes + [last])
            == if ok && codec.decode(last.1).Ops? then (before[KbNode(kb, last.0) := codec.decode(last.1).ops], true)
               else (before, false)
    decreases |nodes|
  {
    if nodes == [] {
      assert [last][1..] == [];
    } else {
      assert (nodes + [last])[1..] == nodes[1..] + [last];
      match codec.decode(nodes[0].1)
      case Malformed =>
      case Ops(ops) => RestoreSnoc(codec, docs[KbNode(kb, nodes[0].0) := ops], kb, nodes[1..], last);
    }
  }

  lemma CleanShareEvents(update: Update, f: Stored)
    ensures HappenAll(ShareEvents(update, NO_FAULTS), f) == if update.Ops? then Stored(update.ops, update.ops, true, true) else f
  {
    if update.Ops? {
      HappenTwo(Clear, Log(update.ops), f);
      assert [Clear] + [Log(update.ops)] == [Clear, Log(update.ops)];
    }
  }

  /** One more share without faults, on one document and on the map. */
  lemma CleanShareStep(codec: Codec, shares: seq<(DocName, Bytes)>, faults: nat -> Faults, n: nat, x: DocName, f: Stored, docs: Docs)
    requires n < |shares| && faults(n) == NO_FAULTS
    requires SameDoc(docs, HappenAll(ImportEvents(codec, shares[..n], faults, x), f), x)
    ensures var ok := AllShared(codec, shares[..n], faults);
            var update := codec.decode(shares[n].1);
            && (AllShared(codec, shares[..n + 1], faults) <==> ok && update.Ops?)
            && SameDoc(if ok && update.Ops? then docs[shares[n].0 := update.ops] else docs,
                       HappenAll(ImportEvents(codec, shares[..n + 1], faults, x), f), x)
  {
    hide ShareEvents, HappenAll;
    var before := HappenAll(ImportEvents(codec, shares[..n], faults, x), f);
    var update := codec.decode(shares[n].1);
    assert shares[..n + 1][..n] == shares[..n];
    CleanShareEvents(update, before);
    DocStoreRuns.NoEvents(before);
    DocStoreRuns.HappenConcat(ImportEvents(codec, shares[..n], faults, x), ShareEvents(update, faults(n)), f);
    DocStoreRuns.HappenConcat(ImportEvents(codec, shares[..n], faults, x), [], f);
    if AllShared(codec, shares[..n + 1], faults) {
      assert ShareSucceeds(codec.decode(shares[..n + 1][n].1), faults(n));
      forall i | 0 <= i < n ensures ShareSucceeds(codec.decode(shares[..n][i].1), faults(i)) {
        assert ShareSucceeds(codec.decode(shares[..n + 1][i].1), faults(i));
      }
    }
  }

  lemma {:induction false} CleanNodes(codec: Codec, cp: Checkpoint, faults: nat -> Faults, k: nat, x: DocName, f: Stored, docs: Docs)
    requires k <= |cp.nodes| && SameDoc(docs, f, x) && forall i :: faults(i) == NO_FAULTS
    ensures var (restored, ok) := Restore(codec, docs, cp.(nodes := cp.nodes[..k]));
            && SameDoc(restored, HappenAll(ImportEvents(codec, Shares(cp)[..k + 1], faults, x), f), x)
            && (ok <==> AllShared(codec, Shares(cp)[..k + 1], faults))
    decreases k
  {
    hide HappenAll, SameDoc, ImportEvents, AllShared;
    var shares := Shares(cp);
    if k == 0 {
      NoShares(codec, shares, faults, x, f);
      CleanShareStep(codec, shares, faults, 0, x, f, docs);
    } else {
      CleanNodes(codec, cp, faults, k - 1, x, f, docs);
      assert cp.nodes[..k] == cp.nodes[..k - 1] + [cp.nodes[k - 1]];
      match codec.decode(cp.collectionState)
      case Ops(ops) =>
        RestoreSnoc(codec, docs[KbCollection(cp.kbId) := ops], cp.kbId, cp.nodes[..k - 1], cp.nodes[k - 1]);
        CleanShareStep(codec, shares, faults, k, x, f, Restore(codec, docs, cp.(nodes := cp.nodes[..k - 1])).0);
      case Malformed =>
        CleanShareStep(codec, shares, faults, k, x, f, docs);
    }
  }

  lemma NoShares(codec: Codec, shares: seq<(DocName, Bytes)>, faults: nat -> Faults, x: DocName, f: Stored)
    ensures AllShared(codec, shares[..0], faults)
    ensures HappenAll(ImportEvents(codec, shares[..0], faults, x), f) == f
  {
  }

  /** Without faults an import makes the stored documents those of the restore. */
  lemma CleanImport(codec: Codec, cp: Checkpoint, faults: nat -> Faults, before: Disk, after: Disk)
    requires forall i :: faults(i) == NO_FAULTS
    requires forall x :: after.At(x) == HappenAll(ImportEvents(codec, Shares(cp), faults, x), before.At(x))
    ensures (View(after), AllShared(codec, Shares(cp), faults)) == Restore(codec, View(before), cp)
  {
    hide HappenAll, ImportEvents, AllShared, Disk.At, View, Shares;
    var (restored, ok) := Restore(codec, View(before), cp);
    var n := |cp.nodes|;
    assert cp.(nodes := cp.nodes[..n]) == cp;
    assert Shares(cp)[..n + 1] == Shares(cp) by {
      ShareCount(cp);
    }
    forall x ensures (x in View(after) <==> x in restored) && (x in restored ==> View(after)[x] == restored[x])
             ensures ok <==> AllShared(codec, Shares(cp), faults) {
      StoredShape(before, x);
      StoredShape(after, x);
      CleanNodes(codec, cp, faults, n, x, before.At(x), View(before));
    }
    assert ok <==> AllShared(codec, Shares(cp), faults) by {
      StoredShape(before, KbCollection(cp.kbId));
      CleanNodes(codec, cp, faults, n, KbCollection(cp.kbId), before.At(KbCollection(cp.kbId)), View(before));
    }
    assert View(after) == restored;
  }

  lemma ShareCount(cp: Checkpoint)
    ensures |Shares(cp)| == |cp.nodes| + 1
  {
  }

  // ---- Export, import, export over two stores ----

  /** A KB that captures from what is stored captures the same from what reads see. */
  lemma CaptureOfSeen(codec: Codec, hash: Hash, s: State, seen: Docs, kb: Id)
    requires SeenBy(s, {}, seen) && Capture(codec, hash, View(s.disk), kb).Ok?
    ensures Capture(codec, hash, seen, kb) == Capture(codec, hash, View(s.disk), kb)
  {
    hide View, Disk.Content, Disk.Exists, Sort, Frame;
    var docs := View(s.disk);
    ViewIsExact(s.disk);
    var ids := Sort(codec.list(docs[KbCollection(kb)]).value);
    CapturedNodes(codec, docs, kb, ids);
    forall i | i in ids ensures KbNode(kb, i) in docs && KbNode(kb, i) in seen && docs[KbNode(kb, i)] == seen[KbNode(kb, i)] {
      var k :| 0 <= k < |ids| && ids[k] == i;
    }
    SameCapture(codec, docs, seen, kb, ids);
  }

  function NeverFails(i: nat): Faults {
    NO_FAULTS
  }

  /**
   Export a KB from one store, import the artifact into another, export it again: the two
   artifacts are the same bytes, and every document outside the artifact is as it was. The
   two stores may be the same one.
   */
  method ExportImportKb(src: DocStore, dst: DocStore, codec: Codec, hash: Hash, kb: Id, now: nat)
    returns (first: Result<Bytes, CaptureError>, second: Result<Bytes, CaptureError>, ghost cp: Checkpoint)
    requires src.Valid() && dst.Valid() && Lawful(codec)
    modifies src, dst
    ensures src.Valid() && dst.Valid()
    ensures first.Err? ==> second == first && dst.disk == old(dst.disk)
    ensures first.Ok? ==> first.value == Print(cp)
    ensures first.Ok? && Good(hash, cp) && |first.value| < TWO64 ==>
              && second == first
              && forall d :: !InArtifact(cp, d) ==>
                   && (d in View(dst.disk) <==> d in View(old(dst.disk)))
                   && (d in View(dst.disk) ==> View(dst.disk)[d] == View(old(dst.disk))[d])
  {
    hide Capture, Restore, Good, Checkpoints.Parse, Print, View, Disk.At, Sound, SeenBy, InArtifact, AllShared, ImportEvents, Shares;
    cp := Checkpoint([], [], [], []);
    ghost var seen;
    var captured;
    captured, seen := CheckpointKb(src, codec, hash, kb, {}, now);
    if captured.Err? {
      return Err(captured.error), Err(captured.error), cp;
    }
    cp := captured.value;
    var artifact := ToBytes(captured.value);
    first := Ok(artifact);
    ghost var before := dst.disk;
    var imported := ImportKb(dst, codec, hash, artifact, NeverFails, now);
    ghost var whole := Good(hash, cp) && |artifact| < TWO64;
    if whole {
      ParseExact(hash, artifact, cp);
      CleanImport(codec, cp, NeverFails, before, dst.disk);
      RestoreThenCapture(codec, hash, seen, View(before), kb);
    }
    ghost var restored := dst.Now();
    var recaptured;
    recaptured, seen := CheckpointKb(dst, codec, hash, kb, {}, now);
    if whole {
      CaptureOfSeen(codec, hash, restored, seen, kb);
    }
    if recaptured.Err? {
      return first, Err(recaptured.error), cp;
    }
    artifact := ToBytes(recaptured.value);
    second := Ok(artifact);
  }
}
