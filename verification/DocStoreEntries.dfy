/**
 What the document store remembers of each document in memory over whole runs: how many
 clients it has, when it was last active, how many updates it took since its last capture,
 and what follows for idle eviction and for compaction.
 */
module DocStoreEntries {
  import opened Basics
  import opened DocNames
  import opened Storage
  import opened DocStores
  import opened DocStoreRuns

  /** A client connects to `x`, or with `leaving` disconnects from it. */
  predicate Tracks(op: Operation, x: DocName, leaving: bool) {
    op.Track? && op.d == x && op.leaving == leaving
  }

  predicate Shares(op: Operation, x: DocName) {
    op.Share? && op.d == x && op.update.Ops?
  }

  function ClientsOf(s: State, x: DocName): nat {
    if x in s.docs then s.docs[x].clients else 0
  }

  function UpdatesOf(s: State, x: DocName): nat {
    if x in s.docs then s.docs[x].updateCount else 0
  }

  /** A write that brings the count to `n` is due for compaction. */
  predicate Due(config: Config, n: nat) {
    n >= config.compactThreshold || (0 < config.maxWalEntries <= n)
  }

  function ClientsAfter(before: nat, op: Operation, x: DocName): nat {
    if Shares(op, x) then 1
    else if Tracks(op, x, false) then before + 1
    else if Tracks(op, x, true) && before > 0 then before - 1
    else before
  }

  function UpdatesAfter(config: Config, before: nat, op: Operation, x: DocName): nat {
    if Shares(op, x) then 1
    else if op.Apply? && Logs(op, x) then (if Due(config, before + 1) then 0 else before + 1)
    else if op.Compact? && op.d == x then 0
    else before
  }

  /** The operation marks `x` as active. */
  predicate Activates(op: Operation, x: DocName) {
    Logs(op, x) || Tracks(op, x, false)
  }

  lemma ApplyEntry(config: Config, s: State, op: Operation, out: Outcome, s': State, x: DocName)
    requires op.Apply? && Step(config, s, op, out, s') && x in s'.docs
    ensures s'.docs[x].clients == ClientsOf(s, x)
    ensures s'.docs[x].updateCount == UpdatesAfter(config, UpdatesOf(s, x), op, x)
    ensures Logs(op, x) ==> s'.docs[x].lastActivity == op.now
    ensures !Logs(op, x) ==> x in s.docs && s'.docs[x].lastActivity == s.docs[x].lastActivity
  {
    hide Disk.Content, Disk.WalAppend, Disk.Compact, EvictionRule;
  }

  lemma ShareEntry(config: Config, s: State, op: Operation, out: Outcome, s': State, x: DocName)
    requires op.Share? && Step(config, s, op, out, s') && x in s'.docs
    ensures s'.docs[x].clients == ClientsAfter(ClientsOf(s, x), op, x)
    ensures s'.docs[x].updateCount == UpdatesAfter(config, UpdatesOf(s, x), op, x)
    ensures Shares(op, x) ==> s'.docs[x].lastActivity == op.now && Logs(op, x)
    ensures !Shares(op, x) ==> x in s.docs && s'.docs[x].lastActivity == s.docs[x].lastActivity
  {
    hide Disk.Content, Disk.WalAppend, Disk.Delete, EvictionRule;
  }

  lemma OtherEntry(config: Config, s: State, op: Operation, out: Outcome, s': State, x: DocName)
    requires !op.Share? && !op.Apply? && Step(config, s, op, out, s') && x in s'.docs
    ensures s'.docs[x].clients == ClientsAfter(ClientsOf(s, x), op, x)
    ensures s'.docs[x].updateCount == UpdatesAfter(config, UpdatesOf(s, x), op, x)
    ensures x in s.docs && !Activates(op, x) ==> s'.docs[x].lastActivity == s.docs[x].lastActivity
    ensures x !in s.docs || Activates(op, x) ==>
              (op.Read? || op.Compact? || op.Track?) && op.d == x && s'.docs[x].lastActivity == op.now
  {
    hide Disk.Content, Disk.Exists, Disk.Compact, Disk.Delete, EvictionRule, IdleSet;
  }

  /**
   Every entry in memory counts exactly the clients that came and went, with 1 after a
   share; exactly the updates since it was opened or captured; and was last active when it
   was opened, written, shared or connected to.
   */
  lemma EntryStep(config: Config, s: State, op: Operation, out: Outcome, s': State, x: DocName)
    requires Step(config, s, op, out, s') && x in s'.docs
    ensures s'.docs[x].clients == ClientsAfter(ClientsOf(s, x), op, x)
    ensures s'.docs[x].updateCount == UpdatesAfter(config, UpdatesOf(s, x), op, x)
    ensures x in s.docs && !Activates(op, x) ==> s'.docs[x].lastActivity == s.docs[x].lastActivity
    ensures x !in s.docs || Activates(op, x) ==> HasTime(op) && s'.docs[x].lastActivity == op.now
  {
    hide Step;
    if op.Apply? {
      ApplyEntry(config, s, op, out, s', x);
    } else if op.Share? {
      ShareEntry(config, s, op, out, s', x);
    } else {
      OtherEntry(config, s, op, out, s', x);
    }
  }

  predicate HasTime(op: Operation) {
    !op.Delete? && !op.Restart?
  }

  // ---- Compaction ----

  /** A logged write saves its document exactly when it is due, the document could be opened, and the install succeeds. */
  lemma WriteSavesExactly(config: Config, s: State, op: Operation, out: Outcome, s': State)
    requires op.Apply? && Step(config, s, op, out, s') && Logs(op, op.d)
    ensures op.d in out.saved <==>
            (op.d in s.docs || !op.f.load) && !op.f.compact && Due(config, UpdatesOf(s, op.d) + 1)
  {
    hide Disk.Content, Disk.WalAppend, Disk.Compact, EvictionRule;
  }

  // ---- Idle eviction ----

  /** An idle pass keeps a document exactly when it has a client or was active within the limit. */
  lemma IdleExactly(config: Config, s: State, op: Operation, out: Outcome, s': State, x: DocName)
    requires op.Evict? && Step(config, s, op, out, s') && x in s.docs
    ensures x in s'.docs <==>
            s.docs[x].clients > 0 || (op.maxIdle > 0 && op.now < s.docs[x].lastActivity + op.maxIdle)
    ensures x in out.evicted <==> x !in s'.docs
  {
    hide Disk.At, Disk.Wf;
  }

  /** No operation is made at an earlier time than one before it. */
  ghost predicate ClockForward(ops: seq<Operation>) {
    forall i, j :: 0 <= i < j < |ops| && HasTime(ops[i]) && HasTime(ops[j]) ==> ops[i].now <= ops[j].now
  }

  /** After `x` was active at some time, no later entry for it is older. */
  lemma {:induction false} ActiveSince(config: Config, states: seq<State>, ops: seq<Operation>, outs: seq<Outcome>, i: nat, n: nat, x: DocName)
    requires IsRun(config, states, ops, outs) && ClockForward(ops) && i < n <= |ops| && Activates(ops[i], x)
    ensures x in states[n].docs ==> states[n].docs[x].lastActivity >= ops[i].now
    decreases n
  {
    hide Step;
    if n > i + 1 {
      ActiveSince(config, states, ops, outs, i, n - 1, x);
    }
    if x in states[n].docs {
      assert Step(config, states[n - 1], ops[n - 1], outs[n - 1], states[n]);
      EntryStep(config, states[n - 1], ops[n - 1], outs[n - 1], states[n], x);
    }
  }

  /**
   A document that was written, shared or connected to at some time is not evicted, and so
   not deleted either, by an idle pass that comes before the limit has run out.
   */
  lemma RecentIsKept(config: Config, states: seq<State>, ops: seq<Operation>, outs: seq<Outcome>, i: nat, j: nat, x: DocName)
    requires IsRun(config, states, ops, outs) && ClockForward(ops) && i < j < |ops|
    requires Activates(ops[i], x) && ops[j].Evict? && ops[j].now < ops[i].now + ops[j].maxIdle
    ensures x !in outs[j].evicted
    ensures x in states[j].docs ==> x in states[j + 1].docs
    ensures states[j + 1].disk.At(x) == states[j].disk.At(x)
  {
    hide Step;
    assert Step(config, states[j], ops[j], outs[j], states[j + 1]);
    if x in states[j].docs {
      ActiveSince(config, states, ops, outs, i, j, x);
      assert HasTime(ops[i]) && HasTime(ops[j]);
      IdleExactly(config, states[j], ops[j], outs[j], states[j + 1], x);
    } else {
      EvictsResidents(config, states[j], ops[j], outs[j], states[j + 1]);
    }
    KeptIsStored(config, states[j], ops[j], outs[j], states[j + 1], x);
  }

  lemma EvictsResidents(config: Config, s: State, op: Operation, out: Outcome, s': State)
    requires op.Evict? && Step(config, s, op, out, s')
    ensures out.evicted <= s.docs.Keys
  {
    hide Disk.At, Disk.Wf;
  }

  lemma KeptIsStored(config: Config, s: State, op: Operation, out: Outcome, s': State, x: DocName)
    requires op.Evict? && Step(config, s, op, out, s') && x !in out.evicted
    ensures s'.disk.At(x) == s.disk.At(x)
  {
    hide Disk.At, Disk.Wf, IdleSet;
  }

  // ---- Connected documents ----

  /** Connects minus disconnects of `x`. */
  function Balance(ops: seq<Operation>, x: DocName): int {
    if ops == [] then 0
    else
      var last := ops[|ops| - 1];
      Balance(ops[..|ops| - 1], x) + (if Tracks(last, x, false) then 1 else if Tracks(last, x, true) then -1 else 0)
  }

  /** The operation throws away what memory knows of `x`. */
  predicate Forgets(op: Operation, x: DocName) {
    Shares(op, x) || (op.Delete? && op.d == x) || op.Restart?
  }

  lemma ConnectedShare(config: Config, s: State, op: Operation, out: Outcome, s': State, x: DocName)
    requires op.Share? && Step(config, s, op, out, s') && x in s.docs && s.docs[x].clients > 0 && !Forgets(op, x)
    ensures x in s'.docs && out.victim != Some(x) && x !in out.evicted
  {
    hide Disk.Content, Disk.WalAppend, Disk.Delete, AllConnected;
  }

  lemma ConnectedApply(config: Config, s: State, op: Operation, out: Outcome, s': State, x: DocName)
    requires op.Apply? && Step(config, s, op, out, s') && x in s.docs && s.docs[x].clients > 0
    ensures x in s'.docs && out.victim != Some(x) && x !in out.evicted
  {
    hide Disk.Content, Disk.WalAppend, Disk.Compact, AllConnected, CompactionDue;
  }

  lemma ConnectedStep(config: Config, s: State, op: Operation, out: Outcome, s': State, x: DocName)
    requires Step(config, s, op, out, s') && x in s.docs && s.docs[x].clients > 0 && !Forgets(op, x)
    ensures x in s'.docs && out.victim != Some(x) && x !in out.evicted
  {
    hide Disk.Content, Disk.Exists, Disk.Compact, Disk.Delete, Disk.At, Disk.Wf, AllConnected, Write, CompactionDue;
    if op.Apply? {
      ConnectedApply(config, s, op, out, s', x);
    } else if op.Share? {
      ConnectedShare(config, s, op, out, s', x);
    }
  }

  /**
   While its connects outnumber its disconnects a document stays in memory, with at least
   that many clients: neither the cap nor an idle pass removes it.
   */
  lemma {:induction false} ConnectedStays(config: Config, states: seq<State>, ops: seq<Operation>, outs: seq<Outcome>, i: nat, n: nat, x: DocName)
    requires IsRun(config, states, ops, outs) && i < n <= |ops|
    requires Tracks(ops[i], x, false) && outs[i].reply.Done?
    requires forall k :: i < k < n ==> !Forgets(ops[k], x)
    requires forall k :: i < k <= n ==> Balance(ops[i..k], x) > 0
    ensures x in states[n].docs && states[n].docs[x].clients >= Balance(ops[i..n], x)
    ensures forall k :: i < k < n ==> outs[k].victim != Some(x) && x !in outs[k].evicted
    decreases n
  {
    hide Step;
    var op := ops[n - 1];
    assert Step(config, states[n - 1], op, outs[n - 1], states[n]);
    assert ops[i..n][..n - 1 - i] == ops[i..n - 1] && ops[i..n][n - 1 - i] == op;
    if n == i + 1 {
      ConnectOpens(config, states[i], op, outs[i], states[n]);
    } else {
      ConnectedStays(config, states, ops, outs, i, n - 1, x);
      assert Balance(ops[i..n - 1], x) > 0;
      ConnectedStep(config, states[n - 1], op, outs[n - 1], states[n], x);
    }
    EntryStep(config, states[n - 1], op, outs[n - 1], states[n], x);
  }

  lemma ConnectOpens(config: Config, s: State, op: Operation, out: Outcome, s': State)
    requires op.Track? && Step(config, s, op, out, s') && out.reply.Done?
    ensures op.d in s'.docs
  {
    hide Disk.Content, Disk.Exists, EvictionRule, EntryOf;
  }

  // ---- Who may bring a durable document about ----

  /** A durable document that is neither stored nor in memory enters memory only by a write, a share or an authorized read. */
  lemma DurablesAreNotInvented(config: Config, s: State, op: Operation, out: Outcome, s': State, x: DocName)
    requires Step(config, s, op, out, s') && Durable(x) && x !in s.docs && !s.disk.Exists(x) && x in s'.docs
    ensures op.Apply? || op.Share? || (op.Read? && op.authorized)
    ensures op.d == x
  {
    hide Disk.Content, Disk.WalAppend, Disk.Compact, Disk.Delete, Disk.At, Disk.Wf, EvictionRule;
  }

  /**
   An ordinary read of a name that is not a node or collection address of a KB is refused
   only when its document is not in memory and its load reports a failure; a read is
   refused as a missing durable document only if it is one.
   */
  lemma EphemeralNamesOpen(config: Config, s: State, op: Operation, out: Outcome, s': State, name: Id)
    requires op.Read? && op.d == Classify(name) && Step(config, s, op, out, s')
    ensures var kb := Parse(name).Some? && (Parse(name).value.Node? || Parse(name).value.Collection?);
            && (out.reply == Failed(StorageFault) <==> op.d !in s.docs && op.loadFails)
            && (out.reply == Failed(DurableDocMissing) <==>
                  kb && op.d !in s.docs && !op.loadFails && !op.authorized && !s.disk.Exists(op.d))
            && (out.reply.Content? || out.reply == Failed(StorageFault) || out.reply == Failed(DurableDocMissing))
  {
    hide Disk.Content, Disk.Exists, EvictionRule, EntryOf, Parse;
    DurableExactly(name);
  }
}
