/**
 The write path of one document taken apart: append, open, apply, capture and install
 are separate steps of any number of writers and compactors, a writer can give up after
 its append, and memory can be unloaded or the process can die between any two steps.

 Four disciplines keep the log safe. They are hypotheses about schedules, not claims
 about the daemon: its writers append before they lock, its compactions install after
 they unlock, and a held entry can be unloaded meanwhile. Each of the four is shown to
 be necessary by a schedule that breaks only that one.
 */
module LogSteps {
  import opened Basics
  import opened DocNames
  import opened Storage
  import DocStores

  datatype Mem = Mem(sync: Doc, walSeq: nat)

  /** A writer that has appended and not yet applied, and the entry it holds, if any. */
  datatype Writer = Writer(update: Doc, holds: Option<nat>)

  /** A captured snapshot on its way to storage. */
  datatype Captured = Captured(state: Doc, walSeq: nat)

  /** `logged` is the history of every append; the steps never read it. */
  datatype World = World(
    disk: Disk,
    entries: seq<Mem>,
    current: Option<nat>,
    pending: map<nat, Writer>,
    inFlight: seq<Captured>,
    logged: map<nat, Doc>)

  datatype Action =
    | Append(update: Doc)
    | Open(id: nat)
    | ApplyHeld(id: nat)
    | GiveUp(id: nat)
    | Touch
    | Unload
    | CaptureFrom(entry: nat)
    | Install(index: nat)
    | Abandon(index: nat)
    | Crash

  const INITIAL := World(EMPTY_DISK, [], None, map[], [], map[])

  /** Storage's reconstruction of the document as a fresh entry. */
  ghost function Load(disk: Disk, d: DocName): Mem {
    Mem(disk.Content(d), DocStores.LastId(After(disk.Rows(d), disk.Cutoff(d))))
  }

  /** The world with the document in memory. */
  ghost function Loaded(w: World, d: DocName): World {
    if w.current.Some? then w
    else w.(entries := w.entries + [Load(w.disk, d)], current := Some(|w.entries|))
  }

  function Remove<T>(s: seq<T>, i: nat): seq<T>
    requires i < |s|
  {
    s[..i] + s[i + 1..]
  }

  ghost predicate Enabled(w: World, a: Action) {
    match a
    case Open(id) => id in w.pending && w.pending[id].holds.None?
    case ApplyHeld(id) => id in w.pending && w.pending[id].holds.Some? && w.pending[id].holds.value < |w.entries|
    case GiveUp(id) => id in w.pending
    case CaptureFrom(e) => e < |w.entries|
    case Install(i) => i < |w.inFlight|
    case Abandon(i) => i < |w.inFlight|
    case _ => true
  }

  ghost function Exec(d: DocName, w: World, a: Action): World
    requires Enabled(w, a)
  {
    match a
    case Append(u) =>
      var id := w.disk.nextId;
      w.(disk := w.disk.WalAppend(d, u), pending := w.pending[id := Writer(u, None)], logged := w.logged[id := u])
    case Open(id) =>
      var l := Loaded(w, d);
      l.(pending := l.pending[id := l.pending[id].(holds := l.current)])
    case ApplyHeld(id) =>
      var e := w.pending[id].holds.value;
      w.(entries := w.entries[e := Mem(w.entries[e].sync + w.pending[id].update, id)], pending := w.pending - {id})
    case GiveUp(id) => w.(pending := w.pending - {id})
    case Touch => Loaded(w, d)
    case Unload => w.(current := None)
    case CaptureFrom(e) =>
      w.(inFlight := w.inFlight + [Captured(w.entries[e].sync, w.entries[e].walSeq)])
    case Install(i) =>
      w.(disk := w.disk.Compact(d, w.inFlight[i].state, w.inFlight[i].walSeq), inFlight := Remove(w.inFlight, i))
    case Abandon(i) => w.(inFlight := Remove(w.inFlight, i))
    case Crash => World(w.disk, [], None, map[], [], w.logged)
  }

  /** A capture is taken from the entry in use, not from one unloaded meanwhile. */
  ghost predicate CapturesCurrent(w: World, a: Action) {
    a.CaptureFrom? ==> w.current == Some(a.entry)
  }

  /** A capture claims no log position an append has reached but not yet applied. */
  ghost predicate CapturesApplied(w: World, a: Action) {
    a.CaptureFrom? && a.entry < |w.entries| ==>
      forall id :: id in w.pending ==> id > w.entries[a.entry].walSeq
  }

  /** Captures reach storage in the order they were taken. */
  ghost predicate InstallsInOrder(w: World, a: Action) {
    a.Install? ==> a.index == 0
  }

  /** A writer gives up after its append only while the document is not in memory, as when its load fails. */
  ghost predicate GivesUpUnloaded(w: World, a: Action) {
    a.GiveUp? ==> w.current.None?
  }

  ghost predicate Legal(d: DocName, actions: seq<Action>)
    decreases |actions|, 0
  {
    actions == [] ||
    (Legal(d, actions[..|actions| - 1]) && Enabled(Run(d, actions[..|actions| - 1]), actions[|actions| - 1]))
  }

  ghost function Run(d: DocName, actions: seq<Action>): World
    requires Legal(d, actions)
    decreases |actions|, 1
  {
    if actions == [] then INITIAL
    else Exec(d, Run(d, actions[..|actions| - 1]), actions[|actions| - 1])
  }

  /** The rule `obeys` holds at every step of the schedule. */
  ghost predicate Throughout(d: DocName, actions: seq<Action>, obeys: (World, Action) -> bool)
    requires Legal(d, actions)
    decreases |actions|
  {
    actions == [] ||
    (Throughout(d, actions[..|actions| - 1], obeys)
     && obeys(Run(d, actions[..|actions| - 1]), actions[|actions| - 1]))
  }

  ghost function AllLogged(w: World): Doc {
    set id, o | id in w.logged && o in w.logged[id] :: o
  }

  // ---- The invariant ----

  /** The update logged under `id` is still a row of the log. */
  predicate InLog(w: World, d: DocName, id: nat)
    requires id in w.logged
  {
    WalEntry(id, w.logged[id]) in w.disk.Rows(d)
  }

  ghost predicate Numbered(w: World) {
    && w.disk.Wf()
    && (forall id :: id in w.logged ==> id < w.disk.nextId)
    && (forall id :: id in w.pending ==> id in w.logged && w.pending[id].update == w.logged[id])
    && (forall e :: 0 <= e < |w.entries| ==> w.entries[e].walSeq < w.disk.nextId)
    && (forall i :: 0 <= i < |w.inFlight| ==> w.inFlight[i].walSeq < w.disk.nextId)
    && (w.current.Some? ==> w.current.value < |w.entries|)
  }

  /** Nothing anywhere that was not logged. */
  ghost predicate Grounded(w: World, d: DocName) {
    && w.disk.SnapshotState(d) <= AllLogged(w)
    && (forall r :: r in w.disk.Rows(d) ==> r.id in w.logged && r.update == w.logged[r.id])
    && (forall e :: 0 <= e < |w.entries| ==> w.entries[e].sync <= AllLogged(w))
    && (forall i :: 0 <= i < |w.inFlight| ==> w.inFlight[i].state <= AllLogged(w))
  }

  /** Every logged update is in the snapshot or still in the log. */
  ghost predicate StorageCovers(w: World, d: DocName) {
    forall id :: id in w.logged ==> w.logged[id] <= w.disk.SnapshotState(d) || InLog(w, d, id)
  }

  /** What the entry in use lacks is about to be applied to it. */
  ghost predicate MemoryCovers(w: World) {
    w.current.Some? && w.current.value < |w.entries| ==>
      forall id :: id in w.logged ==>
        || w.logged[id] <= w.entries[w.current.value].sync
        || (id in w.pending && (w.pending[id].holds.None? || w.pending[id].holds == w.current))

  }

  /** No capture in flight would trim an update that is not yet applied. */
  ghost predicate PendingSafe(w: World, d: DocName) {
    forall id :: id in w.pending && id in w.logged ==>
      InLog(w, d, id) && forall i :: 0 <= i < |w.inFlight| ==> id > w.inFlight[i].walSeq
  }

  /** What a capture lacks, neither it nor any capture ahead of it trims. */
  ghost predicate CapturesCover(w: World, d: DocName) {
    forall i, id :: 0 <= i < |w.inFlight| && id in w.logged && !(w.logged[id] <= w.inFlight[i].state) ==>
      InLog(w, d, id) && forall j :: 0 <= j <= i ==> id > w.inFlight[j].walSeq
  }

  ghost predicate Inv(w: World, d: DocName) {
    Numbered(w) && Grounded(w, d) && StorageCovers(w, d) && MemoryCovers(w) && PendingSafe(w, d) && CapturesCover(w, d)
  }

  lemma ContentMember(w: World, d: DocName, id: nat)
    requires w.disk.Wf() && id in w.logged && InLog(w, d, id)
    ensures w.logged[id] <= w.disk.Content(d)
  {
    ContentIsEverything(w.disk, d);
    forall o | o in w.logged[id] ensures o in Join(w.disk.Rows(d)) {
      assert WalEntry(id, w.logged[id]) in w.disk.Rows(d);
    }
  }

  lemma ContentIsLogged(w: World, d: DocName)
    requires Numbered(w) && Grounded(w, d) && StorageCovers(w, d)
    ensures w.disk.Content(d) == AllLogged(w)
  {
    hide Disk.Wf;
    ContentIsEverything(w.disk, d);
    forall o | o in AllLogged(w) ensures o in w.disk.Content(d) {
      var id :| id in w.logged && o in w.logged[id];
      if InLog(w, d, id) {
        ContentMember(w, d, id);
      }
    }
  }

  lemma LoggedMember(w: World, id: nat)
    requires id in w.logged
    ensures w.logged[id] <= AllLogged(w)
  {
  }

  /** Steps that touch neither storage nor history keep what is said about them. */
  lemma SameStorage(d: DocName, w: World, w': World)
    requires w'.disk == w.disk && w'.logged == w.logged
    ensures AllLogged(w') == AllLogged(w)
    ensures forall k :: k in w.logged ==> InLog(w', d, k) == InLog(w, d, k)
  {
  }

  lemma AppendEffect(d: DocName, w: World, u: Doc)
    requires Numbered(w)
    ensures var w' := Exec(d, w, Append(u));
            && w'.disk.Wf()
            && w'.disk.nextId == w.disk.nextId + 1
            && w'.disk.SnapshotState(d) == w.disk.SnapshotState(d)
            && w'.disk.Rows(d) == w.disk.Rows(d) + [WalEntry(w.disk.nextId, u)]
            && AllLogged(w) <= AllLogged(w')
            && InLog(w', d, w.disk.nextId)
            && (forall id :: id in w.logged && InLog(w, d, id) ==> InLog(w', d, id))
  {
    hide Disk.Wf;
    AppendWf(w.disk, d, u);
    var w' := Exec(d, w, Append(u));
    forall o | o in AllLogged(w) ensures o in AllLogged(w') {
      var k :| k in w.logged && o in w.logged[k];
      assert k in w'.logged;
    }
  }

  lemma AppendKeeps(d: DocName, w: World, u: Doc)
    requires Inv(w, d)
    ensures Inv(Exec(d, w, Append(u)), d)
  {
    hide Disk.Wf, Disk.Content, Disk.Rows, Disk.SnapshotState, AllLogged, InLog;
    AppendEffect(d, w, u);
  }

  lemma LoadedKeeps(d: DocName, w: World)
    requires Inv(w, d)
    ensures Inv(Loaded(w, d), d)
    ensures Loaded(w, d).current.Some?
  {
    hide Disk.Wf, Disk.Content, Disk.Rows, Disk.SnapshotState, AllLogged, InLog;
    if w.current.None? {
      var l := Loaded(w, d);
      ContentIsLogged(w, d);
      LastIdBound(w.disk, d);
      SameStorage(d, w, l);
      forall id | id in l.logged ensures l.logged[id] <= l.entries[l.current.value].sync {
        LoggedMember(w, id);
      }
    }
  }

  lemma LastIdBound(disk: Disk, d: DocName)
    requires disk.Wf()
    ensures DocStores.LastId(After(disk.Rows(d), disk.Cutoff(d))) < disk.nextId
  {
    var rows := After(disk.Rows(d), disk.Cutoff(d));
    if rows != [] {
      assert rows[|rows| - 1] in disk.wal[d];
    }
  }

  lemma HoldKeeps(d: DocName, w: World, id: nat)
    requires Inv(w, d) && w.current.Some? && id in w.pending
    ensures Inv(w.(pending := w.pending[id := w.pending[id].(holds := w.current)]), d)
  {
    hide Disk.Wf, Disk.Content, Disk.Rows, Disk.SnapshotState, AllLogged, InLog;
    SameStorage(d, w, w.(pending := w.pending[id := w.pending[id].(holds := w.current)]));
  }

  lemma OpenKeeps(d: DocName, w: World, id: nat)
    requires Inv(w, d) && Enabled(w, Open(id))
    ensures Inv(Exec(d, w, Open(id)), d)
  {
    hide Inv, Load;
    LoadedKeeps(d, w);
    HoldKeeps(d, Loaded(w, d), id);
  }

  lemma ApplyKeeps(d: DocName, w: World, id: nat)
    requires Inv(w, d) && Enabled(w, ApplyHeld(id))
    ensures Inv(Exec(d, w, ApplyHeld(id)), d)
  {
    hide Disk.Wf, Disk.Content, Disk.Rows, Disk.SnapshotState, AllLogged, InLog;
    LoggedMember(w, id);
    SameStorage(d, w, Exec(d, w, ApplyHeld(id)));
  }

  lemma CaptureKeeps(d: DocName, w: World, a: Action)
    requires Inv(w, d) && a.CaptureFrom? && Enabled(w, a)
    requires CapturesCurrent(w, a) && CapturesApplied(w, a)
    ensures Inv(Exec(d, w, a), d)
  {
    hide Disk.Wf, Disk.Content, Disk.Rows, Disk.SnapshotState, AllLogged, InLog;
    SameStorage(d, w, Exec(d, w, a));
  }

  lemma AbandonCovers(d: DocName, w: World, i: nat)
    requires CapturesCover(w, d) && i < |w.inFlight|
    ensures CapturesCover(Exec(d, w, Abandon(i)), d)
  {
    var w' := Exec(d, w, Abandon(i));
    forall k, id | 0 <= k < |w'.inFlight| && id in w.logged && !(w.logged[id] <= w'.inFlight[k].state)
      ensures InLog(w', d, id) && forall j :: 0 <= j <= k ==> id > w'.inFlight[j].walSeq
    {
      var k' := if k < i then k else k + 1;
      assert w'.inFlight[k] == w.inFlight[k'];
      forall j | 0 <= j <= k ensures id > w'.inFlight[j].walSeq {
        assert w'.inFlight[j] == w.inFlight[if j < i then j else j + 1];
      }
    }
  }

  lemma AbandonKeeps(d: DocName, w: World, i: nat)
    requires Inv(w, d) && i < |w.inFlight|
    ensures Inv(Exec(d, w, Abandon(i)), d)
  {
    hide Disk.Wf, Disk.Content, Disk.Rows, Disk.SnapshotState, AllLogged, InLog, CapturesCover;
    var w' := Exec(d, w, Abandon(i));
    SameStorage(d, w, w');
    AbandonCovers(d, w, i);
    assert forall j :: 0 <= j < |w'.inFlight| ==> w'.inFlight[j] in w.inFlight;
  }

  lemma InstallEffect(d: DocName, w: World)
    requires Numbered(w) && |w.inFlight| > 0
    ensures var w', c := Exec(d, w, Install(0)), w.inFlight[0];
            && w'.disk.Wf()
            && w'.disk.SnapshotState(d) == c.state
            && AllLogged(w') == AllLogged(w)
            && (forall r :: r in w'.disk.Rows(d) ==> r in w.disk.Rows(d))
            && (forall id :: id in w.logged && InLog(w, d, id) && id > c.walSeq ==> InLog(w', d, id))
            && (forall j :: 0 <= j < |w'.inFlight| ==> w'.inFlight[j] == w.inFlight[j + 1])
  {
    hide Disk.Wf, Disk.Content;
    CompactWf(w.disk, d, w.inFlight[0].state, w.inFlight[0].walSeq);
    SameStorage(d, w, w.(inFlight := []));
  }

  lemma InstallKeeps(d: DocName, w: World)
    requires Inv(w, d) && |w.inFlight| > 0
    ensures Inv(Exec(d, w, Install(0)), d)
  {
    hide Disk.Wf, Disk.Content, Disk.Rows, Disk.SnapshotState, AllLogged, InLog;
    InstallEffect(d, w);
  }

  lemma CrashKeeps(d: DocName, w: World)
    requires Inv(w, d)
    ensures Inv(Exec(d, w, Crash), d)
  {
    hide Disk.Wf, Disk.Content, Disk.Rows, Disk.SnapshotState, AllLogged, InLog;
    SameStorage(d, w, Exec(d, w, Crash));
  }

  lemma StepKeeps(d: DocName, w: World, a: Action)
    requires Inv(w, d) && Enabled(w, a)
    requires CapturesCurrent(w, a) && CapturesApplied(w, a) && InstallsInOrder(w, a) && GivesUpUnloaded(w, a)
    ensures Inv(Exec(d, w, a), d)
  {
    hide Inv;
    match a
    case Append(u) => AppendKeeps(d, w, u);
    case Open(id) => OpenKeeps(d, w, id);
    case ApplyHeld(id) => ApplyKeeps(d, w, id);
    case GiveUp(id) => GiveUpKeeps(d, w, id);
    case Touch => LoadedKeeps(d, w);
    case Unload => UnloadKeeps(d, w);
    case CaptureFrom(_) => CaptureKeeps(d, w, a);
    case Install(_) => InstallKeeps(d, w);
    case Abandon(i) => AbandonKeeps(d, w, i);
    case Crash => CrashKeeps(d, w);
  }

  lemma GiveUpKeeps(d: DocName, w: World, id: nat)
    requires Inv(w, d) && id in w.pending && w.current.None?
    ensures Inv(Exec(d, w, GiveUp(id)), d)
  {
    hide Disk.Wf, Disk.Content, Disk.Rows, Disk.SnapshotState, AllLogged, InLog;
    SameStorage(d, w, Exec(d, w, GiveUp(id)));
  }

  lemma UnloadKeeps(d: DocName, w: World)
    requires Inv(w, d)
    ensures Inv(Exec(d, w, Unload), d)
  {
    hide Disk.Wf, Disk.Content, Disk.Rows, Disk.SnapshotState, AllLogged, InLog;
    SameStorage(d, w, Exec(d, w, Unload));
  }

  lemma {:induction false} DisciplinedInv(d: DocName, actions: seq<Action>)
    requires Legal(d, actions)
    requires Throughout(d, actions, CapturesCurrent)
    requires Throughout(d, actions, CapturesApplied)
    requires Throughout(d, actions, InstallsInOrder)
    requires Throughout(d, actions, GivesUpUnloaded)
    ensures Inv(Run(d, actions), d)
    decreases |actions|
  {
    if actions == [] {
      assert AllLogged(INITIAL) == {};
    } else {
      DisciplinedInv(d, actions[..|actions| - 1]);
      StepKeeps(d, Run(d, actions[..|actions| - 1]), actions[|actions| - 1]);
    }
  }

  /**
   Under the four disciplines, in every reachable state, what storage would rebuild is
   exactly the union of every update ever logged; and once no writer is mid-way, the
   document in memory is that same union.
   */
  lemma DisciplinedRunsKeepEverything(d: DocName, actions: seq<Action>)
    requires Legal(d, actions)
    requires Throughout(d, actions, CapturesCurrent)
    requires Throughout(d, actions, CapturesApplied)
    requires Throughout(d, actions, InstallsInOrder)
    requires Throughout(d, actions, GivesUpUnloaded)
    ensures var w := Run(d, actions);
            && w.disk.Content(d) == AllLogged(w)
            && (w.current.Some? && w.pending == map[] ==>
                  w.current.value < |w.entries| && w.entries[w.current.value].sync == AllLogged(w))
  {
    hide Disk.Wf, Disk.Content, Run, Throughout, Legal;
    DisciplinedInv(d, actions);
    var w := Run(d, actions);
    ContentIsLogged(w, d);
  }

  // ---- Each discipline is needed ----

  type Rule = (World, Action) -> bool

  /** A schedule that keeps three of the rules. */
  ghost predicate Keeps(d: DocName, actions: seq<Action>, p: Rule, q: Rule, r: Rule) {
    Legal(d, actions) && Throughout(d, actions, p) && Throughout(d, actions, q) && Throughout(d, actions, r)
  }

  lemma Push(d: DocName, actions: seq<Action>, a: Action, p: Rule, q: Rule, r: Rule) returns (longer: seq<Action>)
    requires Keeps(d, actions, p, q, r)
    requires Enabled(Run(d, actions), a) && p(Run(d, actions), a) && q(Run(d, actions), a) && r(Run(d, actions), a)
    ensures Keeps(d, longer, p, q, r)
    ensures Run(d, longer) == Exec(d, Run(d, actions), a)
  {
    longer := actions + [a];
    assert longer[..|longer| - 1] == actions;
  }

  /** Every writer has finished, and yet storage has lost something that was logged. */
  ghost predicate Lost(d: DocName, actions: seq<Action>)
    requires Legal(d, actions)
  {
    Run(d, actions).pending == map[] && Run(d, actions).disk.Content(d) < AllLogged(Run(d, actions))
  }

  /** The rule constrains captures, installs and giving up only. */
  ghost predicate Free(p: Rule) {
    forall w, x: Action :: !x.CaptureFrom? && !x.Install? && !x.GiveUp? ==> p(w, x)
  }

  lemma TrimAll(disk: Disk, d: DocName, state: Doc, upTo: nat)
    requires forall r :: r in disk.Rows(d) ==> r.id <= upTo
    ensures disk.Compact(d, state, upTo).Rows(d) == []
    ensures disk.Compact(d, state, upTo).Content(d) == state
  {
    var kept := After(disk.Rows(d), upTo);
    HeadIn(kept);
  }

  lemma HeadIn(rows: seq<WalEntry>)
    ensures rows == [] || rows[0] in rows
  {
  }

  lemma TwoLogged(w: World)
    requires w.logged == map[1 := {1}, 2 := {2}]
    ensures AllLogged(w) == {1, 2}
  {
    assert w.logged[1] == {1} && w.logged[2] == {2};
  }

  /** Two appends to a document already in memory. */
  lemma TwoAppends(d: DocName, p: Rule, q: Rule, r: Rule) returns (a: seq<Action>)
    requires Free(p) && Free(q) && Free(r)
    ensures Keeps(d, a, p, q, r)
    ensures var w := Run(d, a);
            && w.entries == [Mem({}, 0)] && w.current == Some(0) && w.inFlight == []
            && w.pending == map[1 := Writer({1}, None), 2 := Writer({2}, None)]
            && w.logged == map[1 := {1}, 2 := {2}]
            && w.disk.Rows(d) == [WalEntry(1, {1}), WalEntry(2, {2})]
  {
    NothingYet(d, p, q, r);
    hide Run, Legal, Throughout, Keeps, Load, Disk.Wf, Disk.Content, After;
    a := Push(d, [], Touch, p, q, r);
    assert Run(d, a) == INITIAL.(entries := [Mem({}, 0)], current := Some(0));
    a := Push(d, a, Append({1}), p, q, r);
    assert Run(d, a).disk.Rows(d) == [WalEntry(1, {1})];
    a := Push(d, a, Append({2}), p, q, r);
  }

  lemma NothingYet(d: DocName, p: Rule, q: Rule, r: Rule)
    ensures Keeps(d, [], p, q, r) && Run(d, []) == INITIAL && Load(EMPTY_DISK, d) == Mem({}, 0)
  {
  }

  /** A writer opens the entry in use and applies. */
  lemma PushWrite(d: DocName, actions: seq<Action>, id: nat, p: Rule, q: Rule, r: Rule) returns (a: seq<Action>)
    requires Free(p) && Free(q) && Free(r) && Keeps(d, actions, p, q, r)
    requires var w := Run(d, actions);
             && id in w.pending && w.pending[id].holds.None?
             && w.current.Some? && w.current.value < |w.entries|
    ensures Keeps(d, a, p, q, r)
    ensures var w := Run(d, actions);
            var e := w.current.value;
            Run(d, a) == w.(entries := w.entries[e := Mem(w.entries[e].sync + w.pending[id].update, id)],
                            pending := w.pending - {id})
  {
    var w := Run(d, actions);
    hide Run, Legal, Throughout, Keeps;
    a := Push(d, actions, Open(id), p, q, r);
    a := Push(d, a, ApplyHeld(id), p, q, r);
    assert w.pending[id := w.pending[id].(holds := w.current)] - {id} == w.pending - {id};
  }

  /** A capture installed at once, trimming the whole log. */
  lemma PushCompaction(d: DocName, actions: seq<Action>, e: nat, p: Rule, q: Rule, r: Rule) returns (a: seq<Action>)
    requires Keeps(d, actions, p, q, r)
    requires var w := Run(d, actions);
             && e < |w.entries| && w.inFlight == []
             && (forall row :: row in w.disk.Rows(d) ==> row.id <= w.entries[e].walSeq)
             && p(w, CaptureFrom(e)) && q(w, CaptureFrom(e)) && r(w, CaptureFrom(e))
    requires forall w :: p(w, Install(0)) && q(w, Install(0)) && r(w, Install(0))
    ensures Keeps(d, a, p, q, r)
    ensures var w, w' := Run(d, actions), Run(d, a);
            && w' == w.(disk := w'.disk)
            && w'.disk.Rows(d) == [] && w'.disk.Content(d) == w.entries[e].sync
  {
    var w := Run(d, actions);
    hide Run, Legal, Throughout, Keeps, Disk.Content, After;
    a := Push(d, actions, CaptureFrom(e), p, q, r);
    TrimAll(w.disk, d, w.entries[e].sync, w.entries[e].walSeq);
    a := Push(d, a, Install(0), p, q, r);
  }

  /**
   Two writers. The second overtakes the first between append and apply, the document is
   compacted, the first then applies and is acknowledged, and a crash loses it.
   */
  lemma UnappliedCaptureLoses(d: DocName) returns (a: seq<Action>)
    ensures Keeps(d, a, CapturesCurrent, InstallsInOrder, GivesUpUnloaded) && Lost(d, a)
  {
    hide Run, Throughout, Legal, Disk.Content, Disk.Rows, AllLogged;
    a := TwoAppends(d, CapturesCurrent, InstallsInOrder, GivesUpUnloaded);
    a := PushWrite(d, a, 2, CapturesCurrent, InstallsInOrder, GivesUpUnloaded);
    a := PushCompaction(d, a, 0, CapturesCurrent, InstallsInOrder, GivesUpUnloaded);
    a := PushWrite(d, a, 1, CapturesCurrent, InstallsInOrder, GivesUpUnloaded);
    a := Push(d, a, Crash, CapturesCurrent, InstallsInOrder, GivesUpUnloaded);
    TwoLogged(Run(d, a));
  }

  /** An older capture installed over a newer one brings back the older snapshot. */
  lemma ReorderedInstallLoses(d: DocName) returns (a: seq<Action>)
    ensures Keeps(d, a, CapturesCurrent, CapturesApplied, GivesUpUnloaded) && Lost(d, a)
  {
    hide Run, Throughout, Legal, Disk.Content, Disk.Rows, After, AllLogged;
    a := TwoAppends(d, CapturesCurrent, CapturesApplied, GivesUpUnloaded);
    a := PushWrite(d, a, 1, CapturesCurrent, CapturesApplied, GivesUpUnloaded);
    assert Run(d, a).entries[0] == Mem({1}, 1);
    a := Push(d, a, CaptureFrom(0), CapturesCurrent, CapturesApplied, GivesUpUnloaded);
    a := PushWrite(d, a, 2, CapturesCurrent, CapturesApplied, GivesUpUnloaded);
    assert Run(d, a).entries[0] == Mem({1, 2}, 2);
    a := Push(d, a, CaptureFrom(0), CapturesCurrent, CapturesApplied, GivesUpUnloaded);
    a := InstallBackwards(d, a);
    TwoLogged(Run(d, a));
  }

  lemma InstallBackwards(d: DocName, actions: seq<Action>) returns (a: seq<Action>)
    requires Keeps(d, actions, CapturesCurrent, CapturesApplied, GivesUpUnloaded)
    requires var w := Run(d, actions);
             && w.inFlight == [Captured({1}, 1), Captured({1, 2}, 2)]
             && (forall row :: row in w.disk.Rows(d) ==> row.id <= 2)
    ensures Keeps(d, a, CapturesCurrent, CapturesApplied, GivesUpUnloaded)
    ensures Run(d, a) == Run(d, actions).(disk := Run(d, a).disk, inFlight := [])
    ensures Run(d, a).disk.Content(d) == {1}
  {
    hide Run, Throughout, Legal, Disk.Content, Disk.Rows, After;
    TrimAll(Run(d, actions).disk, d, {1, 2}, 2);
    a := Push(d, actions, Install(1), CapturesCurrent, CapturesApplied, GivesUpUnloaded);
    TrimAll(Run(d, a).disk, d, {1}, 1);
    a := Push(d, a, Install(0), CapturesCurrent, CapturesApplied, GivesUpUnloaded);
  }

  /** The second writer holds the first entry; the document has been unloaded and reloaded. */
  lemma HeldWhileReloaded(d: DocName) returns (a: seq<Action>)
    ensures Keeps(d, a, CapturesApplied, InstallsInOrder, GivesUpUnloaded)
    ensures var w := Run(d, a);
            && |w.entries| == 2 && w.entries[0] == Mem({}, 0) && w.current == Some(1) && w.inFlight == []
            && w.pending == map[1 := Writer({1}, None), 2 := Writer({2}, Some(0))]
            && w.logged == map[1 := {1}, 2 := {2}]
            && w.disk.Rows(d) == [WalEntry(1, {1}), WalEntry(2, {2})]
  {
    hide Run, Throughout, Legal, Disk.Content, Disk.Rows, Load, AllLogged;
    a := TwoAppends(d, CapturesApplied, InstallsInOrder, GivesUpUnloaded);
    a := Push(d, a, Open(2), CapturesApplied, InstallsInOrder, GivesUpUnloaded);
    a := Push(d, a, Unload, CapturesApplied, InstallsInOrder, GivesUpUnloaded);
    a := Push(d, a, Touch, CapturesApplied, InstallsInOrder, GivesUpUnloaded);
  }

  /**
   A writer holds an entry while it is unloaded and reloaded; the first writer applies to
   the reloaded one. Compacting the stale entry trims the first writer's update.
   */
  lemma StaleCaptureLoses(d: DocName) returns (a: seq<Action>)
    ensures Keeps(d, a, CapturesApplied, InstallsInOrder, GivesUpUnloaded) && Lost(d, a)
  {
    hide Run, Throughout, Legal, Disk.Content, Disk.Rows, Load, AllLogged;
    a := HeldWhileReloaded(d);
    a := PushWrite(d, a, 1, CapturesApplied, InstallsInOrder, GivesUpUnloaded);
    a := Push(d, a, ApplyHeld(2), CapturesApplied, InstallsInOrder, GivesUpUnloaded);
    assert Run(d, a).entries[0] == Mem({2}, 2);
    a := PushCompaction(d, a, 0, CapturesApplied, InstallsInOrder, GivesUpUnloaded);
    TwoLogged(Run(d, a));
  }

  /** A writer gives up while the entry in use lacks its update; the next compaction trims it. */
  lemma GivingUpLoses(d: DocName) returns (a: seq<Action>)
    ensures Keeps(d, a, CapturesCurrent, CapturesApplied, InstallsInOrder) && Lost(d, a)
  {
    hide Run, Throughout, Legal, Disk.Content, Disk.Rows, AllLogged;
    a := TwoAppends(d, CapturesCurrent, CapturesApplied, InstallsInOrder);
    a := Push(d, a, GiveUp(1), CapturesCurrent, CapturesApplied, InstallsInOrder);
    a := PushWrite(d, a, 2, CapturesCurrent, CapturesApplied, InstallsInOrder);
    assert Run(d, a).entries[0] == Mem({2}, 2);
    a := PushCompaction(d, a, 0, CapturesCurrent, CapturesApplied, InstallsInOrder);
    TwoLogged(Run(d, a));
  }
}
