/**
 What the document store promises over whole runs, against a reference that knows
 nothing of snapshots, logs, caches or eviction.
 */
module DocStoreRuns {
  import opened Basics
  import opened DocNames
  import opened Storage
  import opened DocStores
  import opened Histories

  /** The operation put an update for `x` into the log. */
  predicate Logs(op: Operation, x: DocName) {
    (op.Apply? || op.Share?) && op.d == x && op.update.Ops? && !op.f.append
  }

  function LogEvents(op: Operation, x: DocName): seq<Event> {
    if Logs(op, x) then [Log(op.update.ops)] else []
  }

  /** What an operation does to the stored document `x`, in order. */
  function Trace(op: Operation, out: Outcome, x: DocName): seq<Event> {
    match op
    case Apply(_, _, _, _) => LogEvents(op, x) + SaveEvents(x, out.saved)
    case Share(d, update, f, _) => (if d == x && update.Ops? then DeleteEvents(f.delete) else []) + LogEvents(op, x)
    case Compact(_, _, _, _) => SaveEvents(x, out.saved)
    case Delete(d, how) => if d == x then DeleteEvents(how) else []
    case Evict(_, _, _, deletes) => SaveEvents(x, out.saved) + DropEvents(x, out.evicted, deletes)
    case _ => []
  }

  /** Everything that happened to `x`: how the initial database came about, then the run. */
  ghost function History(initial: Disk, ops: seq<Operation>, outs: seq<Outcome>, x: DocName): seq<Event>
    requires |ops| == |outs|
  {
    if ops == [] then Past(initial, x)
    else
      var n := |ops| - 1;
      History(initial, ops[..n], outs[..n], x) + Trace(ops[n], outs[n], x)
  }

  /** A run: any operations, any faults, any choice of victim the eviction rule allows. */
  ghost predicate IsRun(config: Config, states: seq<State>, ops: seq<Operation>, outs: seq<Outcome>) {
    && |states| == |ops| + 1
    && |outs| == |ops|
    && states[0].disk.Wf()
    && states[0].docs == map[]
    && forall i :: 0 <= i < |ops| ==> Step(config, states[i], ops[i], outs[i], states[i + 1])
  }

  lemma {:induction false} HappenConcat(a: seq<Event>, b: seq<Event>, f: Stored)
    ensures HappenAll(a + b, f) == HappenAll(b, HappenAll(a, f))
    decreases |b|
  {
    hide Happen;
    if b == [] {
      assert a + b == a;
    } else {
      HappenConcat(a, b[..|b| - 1], f);
      assert (a + b)[..|a + b| - 1] == a + b[..|b| - 1];
    }
  }

  lemma WriteEvent(s: State, d: DocName, ops: Doc, loadFails: bool, victim: Option<DocName>, now: nat)
    requires Sound(s)
    ensures forall x :: Write(s, d, ops, loadFails, victim, now).disk.At(x)
                     == if x == d then Happen(Log(ops), s.disk.At(x)) else s.disk.At(x)
  {
    hide Disk.At, EntryOf;
    AppendEvent(s.disk, d, ops);
  }

  /** What one write leaves, whatever fails on the way. */
  lemma ApplyEffect(config: Config, s: State, op: Operation, out: Outcome, s': State, x: DocName)
    requires Sound(s) && op.Apply? && Step(config, s, op, out, s')
    ensures Sound(s')
    ensures s'.disk.At(x) == HappenAll(Trace(op, out, x), s.disk.At(x))
  {
    hide Disk.Wf, Disk.At, Coherent, EvictionRule, Happen, HappenAll, Write, Compacted, CompactionDue, Fits;
    var f := s.disk.At(x);
    NoEvents(f);
    if Logs(op, op.d) {
      var u := op.update.ops;
      var w := Write(s, op.d, u, op.f.load, out.victim, op.now);
      WriteSound(s, op.d, u, op.f.load, out.victim, op.now);
      WriteEvent(s, op.d, u, op.f.load, out.victim, op.now);
      LoggedEvents(u, f);
      if op.d in s.docs || !op.f.load {
        WrittenFits(s, op.d, u, op.f.load, out.victim, op.now);
        CompactedSound(w, op.d, w.docs[op.d], op.f.compact, None);
      }
    }
    assert !Logs(op, x) ==> Trace(op, out, x) == [];
  }

  lemma LoggedEvents(u: Doc, f: Stored)
    ensures HappenAll([Log(u)] + [], f) == Happen(Log(u), f)
    ensures HappenAll([Log(u)] + [Save], f) == Happen(Save, Happen(Log(u), f))
  {
    hide Happen;
    HappenOne(Log(u), f);
    HappenTwo(Log(u), Save, f);
    assert [Log(u)] + [] == [Log(u)] && [Log(u)] + [Save] == [Log(u), Save];
  }

  lemma WrittenFits(s: State, d: DocName, ops: Doc, loadFails: bool, victim: Option<DocName>, now: nat)
    requires Sound(s) && (d in s.docs || !loadFails)
    ensures var w := Write(s, d, ops, loadFails, victim, now);
            d in w.docs && Fits(w.docs[d], w.disk, d)
  {
    hide Disk.Wf, Disk.At, Disk.WalAppend, Fits;
    WriteSound(s, d, ops, loadFails, victim, now);
  }

  lemma SharedSound(w: State, d: DocName)
    requires Sound(w) && d in w.docs
    ensures Sound(Put(w, None, d, w.docs[d].(updateCount := 1, clients := 1)))
  {
    hide Disk.Wf, Disk.Content;
    CoherentWithout(w.docs, w.disk, {d});
    PutSound(w, None, d, w.docs[d].(updateCount := 1, clients := 1));
  }

  /** What a share leaves: as much as its delete left, and the shared state. */
  lemma ShareEffect(config: Config, s: State, op: Operation, out: Outcome, s': State, x: DocName)
    requires Sound(s) && op.Share? && Step(config, s, op, out, s')
    ensures Sound(s')
    ensures s'.disk.At(x) == HappenAll(Trace(op, out, x), s.disk.At(x))
  {
    hide Disk.Wf, Disk.At, Disk.WalAppend, Disk.Delete, Coherent, EvictionRule, Happen, EntryOf, Fits, HappenAll;
    NoEvents(s.disk.At(x));
    if op.update.Ops? {
      var c := Cleared(s, op.d, op.f.delete);
      ClearedSound(s, op.d, op.f.delete);
      ClearedEvent(s, op.d, op.f.delete);
      HappenConcat(DeleteEvents(op.f.delete), LogEvents(op, x), s.disk.At(x));
      NoEvents(c.disk.At(x));
      if !op.f.append {
        var u := op.update.ops;
        var w := Write(c, op.d, u, op.f.load, out.victim, op.now);
        WriteSound(c, op.d, u, op.f.load, out.victim, op.now);
        WriteEvent(c, op.d, u, op.f.load, out.victim, op.now);
        HappenOne(Log(u), c.disk.At(x));
        if !op.f.load {
          WrittenFits(c, op.d, u, op.f.load, out.victim, op.now);
          SharedSound(w, op.d);
        }
      }
    }
    assert [] + LogEvents(op, x) == LogEvents(op, x);
  }

  lemma NoEvents(f: Stored)
    ensures HappenAll([], f) == f
  {
  }

  lemma ClearedEvent(s: State, d: DocName, how: Deletion)
    requires Sound(s)
    ensures forall x :: Cleared(s, d, how).disk.At(x) == if x == d then HappenAll(DeleteEvents(how), s.disk.At(x)) else s.disk.At(x)
  {
    hide Disk.At, HappenAll;
    DeleteEvent(s.disk, d, how);
  }

  lemma EvictSound(s: State, s': State, evicted: set<DocName>)
    requires Sound(s) && s'.disk.Wf() && s'.docs == s.docs - evicted && s'.disk.nextId == s.disk.nextId
    requires forall x :: x !in evicted ==> s'.disk.At(x) == s.disk.At(x) && s'.disk.Rows(x) == s.disk.Rows(x)
    ensures Sound(s')
  {
    hide Disk.Wf, Disk.Content;
    forall x | x in s'.docs ensures Fits(s'.docs[x], s'.disk, x) {
      assert s'.disk.At(x).content == s.disk.At(x).content;
    }
  }

  /** The other operations touch a stored document only by saving or deleting it. */
  lemma QuietEffect(config: Config, s: State, op: Operation, out: Outcome, s': State, x: DocName)
    requires Sound(s) && !op.Share? && !op.Apply? && Step(config, s, op, out, s')
    ensures Sound(s')
    ensures s'.disk.At(x) == HappenAll(Trace(op, out, x), s.disk.At(x))
  {
    hide Disk.Wf, Disk.At, Disk.Compact, Disk.Delete, EvictionRule, Happen, EntryOf, Fits, HappenAll, Coherent;
    NoEvents(s.disk.At(x));
    HappenOne(Save, s.disk.At(x));
    match op
    case Read(d, _, _, now) =>
      OpenSound(s, out.victim, d, now);
    case Compact(d, _, compactFails, now) =>
      OpenSound(s, out.victim, d, now);
      OpenedEntry(s, d, now);
      CompactedSound(s, d, EntryOf(s.docs, s.disk, d, now), compactFails, out.victim);
    case Delete(d, how) =>
      ClearedSound(s, d, how);
      ClearedEvent(s, d, how);
    case Track(d, leaving, _, now) =>
      OpenSound(s, out.victim, d, now);
      TrackedSound(s, out.victim, d, leaving, now);
    case Evict(_, _, _, deletes) =>
      forall y | y !in out.evicted ensures s'.disk.At(y) == s.disk.At(y) {
        NoEvents(s.disk.At(y));
      }
      EvictSound(s, s', out.evicted);
      HappenConcat(SaveEvents(x, out.saved), DropEvents(x, out.evicted, deletes), s.disk.At(x));
    case Restart =>
      RestartSound(s);
  }

  lemma RestartSound(s: State)
    requires Sound(s)
    ensures Sound(s.(docs := map[]))
  {
  }

  lemma TrackedSound(s: State, victim: Option<DocName>, d: DocName, leaving: bool, now: nat)
    requires Sound(s)
    ensures Sound(Put(s, victim, d, Tracked(EntryOf(s.docs, s.disk, d, now), leaving, now)))
  {
    hide Disk.Wf, Disk.Content;
    OpenedEntry(s, d, now);
    CoherentWithout(s.docs, s.disk, {d});
    PutSound(s, victim, d, Tracked(EntryOf(s.docs, s.disk, d, now), leaving, now));
  }

  /** Every operation preserves cache coherence and acts on each stored document as its trace says. */
  lemma StepEffect(config: Config, s: State, op: Operation, out: Outcome, s': State, x: DocName)
    requires Sound(s) && Step(config, s, op, out, s')
    ensures Sound(s')
    ensures s'.disk.At(x) == HappenAll(Trace(op, out, x), s.disk.At(x))
  {
    hide Disk.At, Step, Sound, HappenAll, Trace;
    if op.Apply? {
      ApplyEffect(config, s, op, out, s', x);
    } else if op.Share? {
      ShareEffect(config, s, op, out, s', x);
    } else {
      QuietEffect(config, s, op, out, s', x);
    }
  }

  /**
   The store refines the reference at every point of every run: each document holds
   exactly the updates in force, and its log exactly those not saved since.
   */
  lemma {:induction false} RunRefines(config: Config, states: seq<State>, ops: seq<Operation>, outs: seq<Outcome>, n: nat, x: DocName)
    requires IsRun(config, states, ops, outs) && n <= |ops|
    ensures Sound(states[n])
    ensures states[n].disk.At(x) == Held(History(states[0].disk, ops[..n], outs[..n], x))
    decreases n
  {
    hide Disk.At, Step, Held, HappenAll, Trace, Past;
    if n == 0 {
      PastIsHeld(states[0].disk, x);
    } else {
      RunRefines(config, states, ops, outs, n - 1, x);
      StepEffect(config, states[n - 1], ops[n - 1], outs[n - 1], states[n], x);
      assert ops[..n][..n - 1] == ops[..n - 1] && outs[..n][..n - 1] == outs[..n - 1];
      HeldSteps(History(states[0].disk, ops[..n - 1], outs[..n - 1], x), Trace(ops[n - 1], outs[n - 1], x));
    }
  }

  /**
   Every read of every run returns exactly the updates in force. A document that is not
   resident is refused exactly on a storage fault, or when it is durable, the read is an
   ordinary one and nothing is in force; a refused read leaves the database alone and
   brings no document into memory.
   */
  lemma ReadsAreExact(config: Config, states: seq<State>, ops: seq<Operation>, outs: seq<Outcome>, i: nat)
    requires IsRun(config, states, ops, outs) && i < |ops| && ops[i].Read?
    ensures !outs[i].reply.Done?
    ensures outs[i].reply.Content? ==>
              outs[i].reply.doc == Surviving(History(states[0].disk, ops[..i], outs[..i], ops[i].d))
    ensures outs[i].reply.Failed? <==>
              && ops[i].d !in states[i].docs
              && (ops[i].loadFails
                  || (Durable(ops[i].d) && !ops[i].authorized
                      && !Present(History(states[0].disk, ops[..i], outs[..i], ops[i].d))))
    ensures outs[i].reply.Failed? ==> states[i + 1].disk == states[i].disk && states[i + 1].docs.Keys <= states[i].docs.Keys
  {
    hide Disk.Wf, Disk.Content, Disk.Exists, Surviving, Tail, Present, HasTail, EvictionRule, History;
    RunRefines(config, states, ops, outs, i, ops[i].d);
    assert Step(config, states[i], ops[i], outs[i], states[i + 1]);
  }

  /** No delete the operation makes fails between its two statements. */
  ghost predicate Untorn(op: Operation) {
    match op
    case Share(_, _, f, _) => !f.delete.Torn?
    case Delete(_, how) => !how.Torn?
    case Evict(_, _, _, deletes) => forall x :: !deletes(x).Torn?
    case _ => true
  }

  lemma {:induction false} NoTears(initial: Disk, ops: seq<Operation>, outs: seq<Outcome>, x: DocName)
    requires |ops| == |outs| && forall i :: 0 <= i < |ops| ==> Untorn(ops[i])
    ensures forall e :: e in History(initial, ops, outs, x) ==> !e.Tear?
    decreases |ops|
  {
    if ops != [] {
      NoTears(initial, ops[..|ops| - 1], outs[..|ops| - 1], x);
      assert Untorn(ops[|ops| - 1]);
    }
  }

  /**
   In a run whose deletes succeed or fail whole, every read returns the join of everything
   logged since the document's last share, delete or, if ephemeral, idle eviction.
   */
  lemma ReadsEverything(config: Config, states: seq<State>, ops: seq<Operation>, outs: seq<Outcome>, i: nat)
    requires IsRun(config, states, ops, outs) && i < |ops| && ops[i].Read?
    requires forall j :: 0 <= j < i ==> Untorn(ops[j])
    ensures outs[i].reply.Content? ==>
              outs[i].reply.doc == SinceCleared(History(states[0].disk, ops[..i], outs[..i], ops[i].d))
  {
    hide Step, History, Surviving, SinceCleared, Present, Untorn;
    var h := History(states[0].disk, ops[..i], outs[..i], ops[i].d);
    ReadsAreExact(config, states, ops, outs, i);
    NoTears(states[0].disk, ops[..i], outs[..i], ops[i].d);
    assert forall j :: 0 <= j < |h| ==> h[j] in h;
    UntornIsEverything(h);
  }

  /** A durable document never loses content to eviction, compaction, a restart or a read. */
  lemma DurableKeepsContent(config: Config, s: State, op: Operation, out: Outcome, s': State, x: DocName)
    requires Sound(s) && Step(config, s, op, out, s')
    requires Durable(x)
    requires op.Share? || op.Delete? ==> op.d != x
    ensures s.disk.Content(x) <= s'.disk.Content(x)
    ensures !op.Apply? ==> s'.disk.Content(x) == s.disk.Content(x)
  {
    hide Disk.Wf, Disk.Content, Disk.Exists, Step, Sound;
    StepEffect(config, s, op, out, s', x);
    var f := s.disk.At(x);
    HappenOne(Save, f);
    if op.Apply? && Logs(op, x) {
      LoggedEvents(op.update.ops, f);
    }
    assert [] + SaveEvents(x, out.saved) == SaveEvents(x, out.saved) == SaveEvents(x, out.saved) + [];
  }

  /** The largest number of documents with a client at once, over the given states. */
  ghost function Peak(states: seq<State>): nat {
    if states == [] then 0
    else Max(Peak(states[..|states| - 1]), |Connected(states[|states| - 1].docs)|)
  }

  lemma ApplyGrowth(config: Config, s: State, op: Operation, out: Outcome, s': State)
    requires op.Apply? && Step(config, s, op, out, s')
    ensures GrowthBounded(s.docs, s'.docs, config.maxDocuments)
  {
    hide Disk.WalAppend, Disk.Compact, EvictionRule, GrowthBounded, Write;
    NoGrowth(s.docs, {}, config.maxDocuments);
    if op.update.Ops? && !op.f.append {
      var w := Write(s, op.d, op.update.ops, op.f.load, out.victim, op.now);
      WriteGrowth(config, s, op.d, op.update.ops, op.f.load, out.victim, op.now);
      if op.d in w.docs {
        SameKeys(w.docs, w.docs[op.d := w.docs[op.d].(updateCount := 0)], s.docs, config.maxDocuments);
      }
    }
  }

  lemma ShareGrowth(config: Config, s: State, op: Operation, out: Outcome, s': State)
    requires op.Share? && Step(config, s, op, out, s')
    ensures GrowthBounded(s.docs, s'.docs, config.maxDocuments)
  {
    hide Disk.WalAppend, Disk.Delete, EvictionRule, GrowthBounded, Write;
    NoGrowth(s.docs, {op.d}, config.maxDocuments);
    if op.update.Ops? && !op.f.append {
      var c := Cleared(s, op.d, op.f.delete);
      var w := Write(c, op.d, op.update.ops, op.f.load, out.victim, op.now);
      WriteGrowth(config, c, op.d, op.update.ops, op.f.load, out.victim, op.now);
      if !op.f.load {
        SameKeys(w.docs, w.docs[op.d := w.docs[op.d].(updateCount := 1, clients := 1)], c.docs, config.maxDocuments);
      }
      GrowthAfterRemoval(s.docs, {op.d}, s'.docs, config.maxDocuments);
    }
  }

  lemma StepGrowth(config: Config, s: State, op: Operation, out: Outcome, s': State)
    requires Step(config, s, op, out, s')
    ensures GrowthBounded(s.docs, s'.docs, config.maxDocuments)
  {
    hide Disk.Content, Disk.Exists, Disk.Compact, Disk.Delete, EvictionRule, GrowthBounded, EntryOf;
    var cap := config.maxDocuments;
    match op
    case Apply(_, _, _, _) =>
      ApplyGrowth(config, s, op, out, s');
    case Share(_, _, _, _) =>
      ShareGrowth(config, s, op, out, s');
    case Read(d, _, _, now) =>
      InstallGrowth(s.docs, cap, d, out.victim, EntryOf(s.docs, s.disk, d, now));
    case Compact(d, _, _, now) =>
      InstallGrowth(s.docs, cap, d, out.victim, EntryOf(s.docs, s.disk, d, now).(updateCount := 0));
    case Delete(d, _) =>
      NoGrowth(s.docs, {d}, cap);
    case Track(d, leaving, _, now) =>
      InstallGrowth(s.docs, cap, d, out.victim, Tracked(EntryOf(s.docs, s.disk, d, now), leaving, now));
    case Evict(_, _, _, _) =>
      NoGrowth(s.docs, out.evicted, cap);
    case Restart =>
      NoGrowth(s.docs, s.docs.Keys, cap);
      assert s.docs - s.docs.Keys == map[];
  }

  lemma NoGrowth(docs: Resident, gone: set<DocName>, cap: nat)
    ensures GrowthBounded(docs, docs - gone, cap)
    ensures GrowthBounded(docs, docs, cap)
  {
    RemovalGrowth(docs, gone, cap);
  }

  lemma SameKeys(docs: Resident, docs': Resident, before: Resident, cap: nat)
    requires docs.Keys == docs'.Keys && GrowthBounded(before, docs, cap)
    ensures GrowthBounded(before, docs', cap)
  {
    assert |docs| == |docs.Keys| == |docs'.Keys| == |docs'|;
  }

  lemma GrowthAfterRemoval(docs: Resident, gone: set<DocName>, after: Resident, cap: nat)
    requires GrowthBounded(docs - gone, after, cap)
    ensures GrowthBounded(docs, after, cap)
  {
    RemovalGrowth(docs, gone, cap);
  }

  lemma WriteGrowth(config: Config, s: State, d: DocName, ops: Doc, loadFails: bool, victim: Option<DocName>, now: nat)
    requires EvictionRule(s.docs, config.maxDocuments, d, victim)
    ensures GrowthBounded(s.docs, Write(s, d, ops, loadFails, victim, now).docs, config.maxDocuments)
    ensures d in s.docs || !loadFails ==> d in Write(s, d, ops, loadFails, victim, now).docs
  {
    hide Disk.Content, EvictionRule, GrowthBounded;
    var logged := s.disk.WalAppend(d, ops);
    InstallGrowth(s.docs, config.maxDocuments, d, victim,
                  AppliedEntry(EntryOf(s.docs, logged, d, now), ops, s.disk.nextId, now));
  }

  /**
   With a cap, no state of a run holds more documents than the cap, or than one more than
   the most documents that had a client at once.
   */
  lemma {:induction false} WorkingSetBound(config: Config, states: seq<State>, ops: seq<Operation>, outs: seq<Outcome>, n: nat)
    requires IsRun(config, states, ops, outs) && n <= |ops| && config.maxDocuments > 0
    ensures |states[n].docs| <= Max(config.maxDocuments, 1 + Peak(states[..n + 1]))
  {
    hide Step;
    assert states[..n + 1][..n] == states[..n];
    if n > 0 {
      WorkingSetBound(config, states, ops, outs, n - 1);
      StepGrowth(config, states[n - 1], ops[n - 1], outs[n - 1], states[n]);
      assert states[..n][..n - 1] == states[..n - 1];
    }
  }

  /** The feed gains the document's name exactly when a durable write reports success. */
  lemma FeedFollowsReplies(config: Config, s: State, op: Operation, out: Outcome, s': State)
    requires Step(config, s, op, out, s')
    ensures s'.feed == s.feed + if (op.Apply? || op.Share?) && out.reply.Done? && Durable(op.d) then [op.d] else []
  {
    hide Disk.Content, Disk.Exists, EvictionRule, EntryOf, Installed;
  }

  /**
   A durable write can change what readers see and still be announced to nobody: that
   happens exactly when it was logged but a later storage call of the same operation
   failed.
   */
  lemma SilentWrites(config: Config, s: State, op: Operation, out: Outcome, s': State)
    requires Sound(s) && Step(config, s, op, out, s')
    requires (op.Apply? || op.Share?) && Durable(op.d) && Logs(op, op.d)
    ensures op.update.ops <= s'.disk.Content(op.d)
    ensures s'.feed == s.feed <==>
            || (op.f.load && (op.Share? || op.d !in s.docs))
            || (op.Apply? && op.f.compact
                && CompactionDue(config, (if op.d in s.docs then s.docs[op.d].updateCount else 0) + 1))
  {
    hide Disk.Wf, Disk.Content, Disk.Exists, Disk.WalAppend, Disk.Delete, Disk.Compact, EvictionRule;
    LoggedIsThere(config, s, op, out, s');
    FeedFollowsReplies(config, s, op, out, s');
  }

  lemma LoggedIsThere(config: Config, s: State, op: Operation, out: Outcome, s': State)
    requires Sound(s) && Step(config, s, op, out, s') && (op.Apply? || op.Share?) && Logs(op, op.d)
    ensures op.update.ops <= s'.disk.Content(op.d)
  {
    hide Disk.Wf, Disk.Content, Disk.Exists, Step, Sound;
    StepEffect(config, s, op, out, s', op.d);
    var f, u := s.disk.At(op.d), op.update.ops;
    if op.Apply? {
      LoggedEvents(u, f);
    } else {
      HappenConcat(DeleteEvents(op.f.delete), [Log(u)], f);
      HappenOne(Log(u), HappenAll(DeleteEvents(op.f.delete), f));
    }
  }
}
