/**
 The legacy-document migration against crashes, statement by statement.

 Moving a node deletes the scoped document (two statements), appends the legacy content
 to it, and deletes the legacy document (two statements). The process may die between any
 two of them and is then run again from the top. Nothing else writes meanwhile.
 */
module MigrationCrashes {
  import opened Basics
  import opened DocNames
  import opened Storage

  /** The KB that alone claims each node, as the manifests say; no step touches a manifest. */
  type Claims = map<Id, Id>

  /** `Moving(n, state, stage)`: `state` was read from the legacy document, `stage` statements ran. */
  datatype Phase = Off | Choosing | Moving(n: Id, state: Doc, stage: nat)

  datatype World = World(disk: Disk, phase: Phase)

  datatype Action = Start | Pick(n: Id) | Advance | Crash

  predicate Planned(claims: Claims, disk: Disk, n: Id) {
    n in claims && disk.Exists(Legacy(n))
  }

  function Scoped(claims: Claims, n: Id): DocName
    requires n in claims
  {
    KbNode(claims[n], n)
  }

  predicate Enabled(claims: Claims, w: World, a: Action) {
    match a
    case Start => w.phase.Off?
    case Pick(n) => w.phase.Choosing? && Planned(claims, w.disk, n)
    case Advance => w.phase.Moving? && w.phase.n in claims && w.phase.stage < 5
    case Crash => true
  }

  /** The statement run at `stage`. */
  function Statement(claims: Claims, disk: Disk, n: Id, state: Doc, stage: nat): Disk
    requires n in claims && stage < 5
  {
    match stage
    case 0 => disk.DeleteSnapshot(Scoped(claims, n))
    case 1 => disk.DeleteRows(Scoped(claims, n))
    case 2 => disk.WalAppend(Scoped(claims, n), state)
    case 3 => disk.DeleteSnapshot(Legacy(n))
    case _ => disk.DeleteRows(Legacy(n))
  }

  ghost function Exec(claims: Claims, w: World, a: Action): World
    requires Enabled(claims, w, a)
  {
    match a
    case Start => w.(phase := Choosing)
    case Pick(n) => w.(phase := Moving(n, w.disk.Content(Legacy(n)), 0))
    case Advance =>
      var Moving(n, state, stage) := w.phase;
      World(Statement(claims, w.disk, n, state, stage), if stage == 4 then Choosing else Moving(n, state, stage + 1))
    case Crash => w.(phase := Off)
  }

  ghost predicate Legal(claims: Claims, w: World, actions: seq<Action>)
    decreases |actions|
  {
    actions == [] || (Enabled(claims, w, actions[0]) && Legal(claims, Exec(claims, w, actions[0]), actions[1..]))
  }

  ghost function Run(claims: Claims, w: World, actions: seq<Action>): World
    requires Legal(claims, w, actions)
    decreases |actions|
  {
    if actions == [] then w else Run(claims, Exec(claims, w, actions[0]), actions[1..])
  }

  /** A run has finished when it looks for the next node and none is left. */
  ghost predicate Finished(claims: Claims, w: World) {
    w.phase.Choosing? && forall n :: !Planned(claims, w.disk, n)
  }

  /** Deleting only the snapshot of this document would leave a different document behind. */
  ghost predicate Tearable(disk: Disk, d: DocName) {
    disk.Rows(d) != [] && Join(disk.Rows(d)) != disk.Content(d)
  }

  // ---- The invariant, relative to the database the first run started from ----

  /** The legacy document is there with its whole content. */
  ghost predicate Intact(start: Disk, disk: Disk, n: Id) {
    && disk.Exists(Legacy(n))
    && disk.Rows(Legacy(n)) == start.Rows(Legacy(n))
    && disk.Content(Legacy(n)) == start.Content(Legacy(n))
  }

  ghost predicate Copied(claims: Claims, start: Disk, disk: Disk, n: Id)
    requires n in claims
  {
    disk.Exists(Scoped(claims, n)) && disk.Content(Scoped(claims, n)) == start.Content(Legacy(n))
  }

  ghost predicate NodeInv(claims: Claims, start: Disk, w: World, n: Id)
    requires n in claims
  {
    if w.phase.Moving? && w.phase.n == n then
      && w.phase.state == start.Content(Legacy(n))
      && (w.phase.stage <= 3 ==> Intact(start, w.disk, n))
      && (w.phase.stage == 1 ==> Scoped(claims, n) !in w.disk.snapshots)
      && (w.phase.stage == 2 ==> !w.disk.Exists(Scoped(claims, n)))
      && (w.phase.stage == 3 ==> Copied(claims, start, w.disk, n))
      && (w.phase.stage == 4 ==>
            && Copied(claims, start, w.disk, n)
            && Legacy(n) !in w.disk.snapshots && w.disk.Rows(Legacy(n)) == start.Rows(Legacy(n)))
      && w.phase.stage < 5
    else
      Intact(start, w.disk, n) || (!w.disk.Exists(Legacy(n)) && Copied(claims, start, w.disk, n))
  }

  /** Not a document the migration of `start` moves, nor the place one moves to. */
  predicate Untouched(claims: Claims, start: Disk, d: DocName) {
    match d
    case Legacy(n) => !Planned(claims, start, n)
    case KbNode(kb, n) => !(Planned(claims, start, n) && claims[n] == kb)
    case _ => true
  }

  ghost predicate Inv(claims: Claims, start: Disk, w: World) {
    && w.disk.Wf()
    && (w.phase.Moving? ==> Planned(claims, start, w.phase.n))
    && (forall n :: Planned(claims, start, n) ==> NodeInv(claims, start, w, n))
    && (forall d :: Untouched(claims, start, d) ==>
          w.disk.Content(d) == start.Content(d) && w.disk.Exists(d) == start.Exists(d))
  }

  /** A statement on one document leaves every other document as it was. */
  lemma StatementFrame(disk: Disk, d: DocName, update: Doc)
    requires disk.Wf()
    ensures disk.DeleteSnapshot(d).Wf() && disk.DeleteRows(d).Wf() && disk.WalAppend(d, update).Wf()
    ensures forall x :: x != d ==> SameDoc(disk, disk.DeleteSnapshot(d), x)
    ensures forall x :: x != d ==> SameDoc(disk, disk.DeleteRows(d), x)
    ensures forall x :: x != d ==> SameDoc(disk, disk.WalAppend(d, update), x)
  {
    AppendWf(disk, d, update);
  }

  ghost predicate SameDoc(a: Disk, b: Disk, x: DocName) {
    && a.Rows(x) == b.Rows(x)
    && (x in a.snapshots <==> x in b.snapshots)
    && (x in a.snapshots ==> a.snapshots[x] == b.snapshots[x])
  }

  lemma SameDocContent(a: Disk, b: Disk, x: DocName)
    requires SameDoc(a, b, x)
    ensures a.Content(x) == b.Content(x) && a.Exists(x) == b.Exists(x)
  {
  }

  /** What a step on node `n`'s two documents cannot disturb. */
  lemma OthersKeep(claims: Claims, start: Disk, w: World, w': World, n: Id, target: DocName)
    requires Inv(claims, start, w) && Planned(claims, start, n) && w.phase.Moving? && w.phase.n == n
    requires target == Legacy(n) || target == Scoped(claims, n)
    requires forall x :: x != target ==> SameDoc(w.disk, w'.disk, x)
    requires w'.phase.Choosing? || (w'.phase.Moving? && w'.phase.n == n)
    ensures forall m :: m != n && Planned(claims, start, m) ==> NodeInv(claims, start, w', m)
    ensures forall d :: Untouched(claims, start, d) ==>
              w'.disk.Content(d) == start.Content(d) && w'.disk.Exists(d) == start.Exists(d)
  {
    hide Disk.Content, Disk.Wf, SameDoc;
    forall x | x != target ensures w'.disk.Content(x) == w.disk.Content(x) && w'.disk.Exists(x) == w.disk.Exists(x) {
      SameDocContent(w.disk, w'.disk, x);
    }
    forall m | m != n && Planned(claims, start, m) ensures NodeInv(claims, start, w', m) {
      assert NodeInv(claims, start, w, m);
      assert Legacy(m) != target && Scoped(claims, m) != target;
      SameRows(w.disk, w'.disk, Legacy(m));
    }
  }

  lemma SameRows(a: Disk, b: Disk, x: DocName)
    requires SameDoc(a, b, x)
    ensures a.Rows(x) == b.Rows(x)
  {
  }

  /** The node being moved, from one statement to the next. */
  lemma MovedKeeps(claims: Claims, start: Disk, w: World)
    requires Inv(claims, start, w) && w.phase.Moving?
    ensures NodeInv(claims, start, Exec(claims, w, Advance), w.phase.n)
  {
    hide Disk.Wf, Disk.Content;
    var Moving(n, state, stage) := w.phase;
    assert NodeInv(claims, start, w, n);
    var legacy, scoped := Legacy(n), Scoped(claims, n);
    var disk' := Statement(claims, w.disk, n, state, stage);
    if stage <= 2 {
      StatementFrame(w.disk, scoped, state);
      SameDocContent(w.disk, disk', legacy);
      if stage == 2 {
        AppendContent(w.disk, scoped, state);
        ContentIsEverything(w.disk, scoped);
      }
    } else {
      StatementFrame(w.disk, legacy, state);
      SameDocContent(w.disk, disk', scoped);
    }
  }

  lemma AdvanceKeeps(claims: Claims, start: Disk, w: World)
    requires Inv(claims, start, w) && w.phase.Moving?
    ensures Enabled(claims, w, Advance) && Inv(claims, start, Exec(claims, w, Advance))
  {
    hide Disk.Wf, Disk.Content, Disk.Exists, SameDoc;
    var Moving(n, state, stage) := w.phase;
    assert NodeInv(claims, start, w, n);
    MovedKeeps(claims, start, w);
    var target := if stage <= 2 then Scoped(claims, n) else Legacy(n);
    StatementFrame(w.disk, target, state);
    OthersKeep(claims, start, w, Exec(claims, w, Advance), n, target);
  }

  /** A crash may strike anywhere except inside the delete of a tearable legacy document. */
  ghost predicate SafeCrash(start: Disk, w: World, a: Action) {
    a.Crash? && w.phase.Moving? && w.phase.stage == 4 ==> !Tearable(start, Legacy(w.phase.n))
  }

  lemma CrashKeeps(claims: Claims, start: Disk, w: World)
    requires Inv(claims, start, w) && SafeCrash(start, w, Crash)
    ensures Inv(claims, start, Exec(claims, w, Crash))
  {
    hide Disk.Wf, Disk.Content;
    if w.phase.Moving? {
      var n := w.phase.n;
      assert NodeInv(claims, start, w, n);
      ContentIsEverything(w.disk, Legacy(n));
    }
  }

  lemma StepKeeps(claims: Claims, start: Disk, w: World, a: Action)
    requires Inv(claims, start, w) && Enabled(claims, w, a) && SafeCrash(start, w, a)
    ensures Inv(claims, start, Exec(claims, w, a))
  {
    hide Disk.Wf, Disk.Content, Disk.Exists;
    match a
    case Start =>
    case Pick(n) =>
      assert Untouched(claims, start, Legacy(n)) || Planned(claims, start, n);
      assert NodeInv(claims, start, w, n);
    case Advance => AdvanceKeeps(claims, start, w);
    case Crash => CrashKeeps(claims, start, w);
  }

  ghost predicate Throughout(claims: Claims, start: Disk, w: World, actions: seq<Action>)
    requires Legal(claims, w, actions)
    decreases |actions|
  {
    actions == [] ||
    (SafeCrash(start, w, actions[0]) && Throughout(claims, start, Exec(claims, w, actions[0]), actions[1..]))
  }

  lemma {:induction false} RunKeeps(claims: Claims, start: Disk, w: World, actions: seq<Action>)
    requires Inv(claims, start, w) && Legal(claims, w, actions) && Throughout(claims, start, w, actions)
    ensures Inv(claims, start, Run(claims, w, actions))
    decreases |actions|
  {
    hide Inv;
    if actions != [] {
      StepKeeps(claims, start, w, actions[0]);
      RunKeeps(claims, start, Exec(claims, w, actions[0]), actions[1..]);
    }
  }

  lemma Initially(claims: Claims, start: Disk)
    requires start.Wf()
    ensures Inv(claims, start, World(start, Off))
  {
  }

  /** At every moment each planned node's whole content is under its legacy or its scoped name. */
  lemma ContentIsSomewhere(claims: Claims, start: Disk, actions: seq<Action>, n: Id)
    requires start.Wf() && Planned(claims, start, n)
    requires Legal(claims, World(start, Off), actions) && Throughout(claims, start, World(start, Off), actions)
    ensures var disk := Run(claims, World(start, Off), actions).disk;
            || disk.Content(Legacy(n)) == start.Content(Legacy(n))
            || disk.Content(Scoped(claims, n)) == start.Content(Legacy(n))
  {
    hide Disk.Content, Disk.Exists, Run, Throughout, Legal;
    Initially(claims, start);
    RunKeeps(claims, start, World(start, Off), actions);
    assert NodeInv(claims, start, Run(claims, World(start, Off), actions), n);
  }

  /**
   However often it crashed on the way, a finished migration has left the same documents:
   every planned node under its scoped name with its legacy content and its legacy name
   gone, and everything else as it was.
   */
  lemma FinishedIsUninterrupted(claims: Claims, start: Disk, actions: seq<Action>)
    requires start.Wf()
    requires Legal(claims, World(start, Off), actions) && Throughout(claims, start, World(start, Off), actions)
    requires Finished(claims, Run(claims, World(start, Off), actions))
    ensures var disk := Run(claims, World(start, Off), actions).disk;
            && (forall n :: Planned(claims, start, n) ==>
                  !disk.Exists(Legacy(n)) && Copied(claims, start, disk, n))
            && (forall d :: Untouched(claims, start, d) ==>
                  disk.Content(d) == start.Content(d) && disk.Exists(d) == start.Exists(d))
  {
    hide Disk.Content, Disk.Exists, Run, Throughout, Legal, Untouched;
    Initially(claims, start);
    RunKeeps(claims, start, World(start, Off), actions);
    var w := Run(claims, World(start, Off), actions);
    forall n | Planned(claims, start, n) ensures !w.disk.Exists(Legacy(n)) && Copied(claims, start, w.disk, n) {
      assert NodeInv(claims, start, w, n) && !Planned(claims, w.disk, n);
    }
  }

  /** Any two finished migrations of the same database, crashed or not, leave the same documents. */
  lemma FinishedRunsAgree(claims: Claims, start: Disk, a: seq<Action>, b: seq<Action>)
    requires start.Wf()
    requires Legal(claims, World(start, Off), a) && Throughout(claims, start, World(start, Off), a)
    requires Legal(claims, World(start, Off), b) && Throughout(claims, start, World(start, Off), b)
    requires Finished(claims, Run(claims, World(start, Off), a)) && Finished(claims, Run(claims, World(start, Off), b))
    ensures var x, y := Run(claims, World(start, Off), a).disk, Run(claims, World(start, Off), b).disk;
            forall d :: x.Exists(d) == y.Exists(d) && x.Content(d) == y.Content(d)
  {
    hide Disk.Content, Disk.Exists, Disk.Wf, Run, Throughout, Legal, Finished, Planned;
    FinishedIsUninterrupted(claims, start, a);
    FinishedIsUninterrupted(claims, start, b);
    var x, y := Run(claims, World(start, Off), a).disk, Run(claims, World(start, Off), b).disk;
    forall d ensures x.Exists(d) == y.Exists(d) && x.Content(d) == y.Content(d) {
      if !Untouched(claims, start, d) && d.Legacy? {
        AbsentIsEmpty(x, d);
        AbsentIsEmpty(y, d);
      }
    }
  }

  /** The nodes still to be dealt with, including the one in hand. */
  function Remaining(claims: Claims, w: World): set<Id> {
    (set n | n in claims && w.disk.Exists(Legacy(n))) + (if w.phase.Moving? then {w.phase.n} else {})
  }

  lemma AdvanceShrinks(claims: Claims, start: Disk, w: World)
    requires Inv(claims, start, w) && w.phase.Moving? && Enabled(claims, w, Advance)
    ensures Remaining(claims, Exec(claims, w, Advance)) <= Remaining(claims, w)
    ensures w.phase.stage == 4 ==> w.phase.n !in Remaining(claims, Exec(claims, w, Advance))
  {
    hide Disk.Wf, Disk.Content;
    var Moving(n, state, stage) := w.phase;
    assert NodeInv(claims, start, w, n);
    var disk' := Exec(claims, w, Advance).disk;
    forall m | m != n && m in claims ensures disk'.Exists(Legacy(m)) == w.disk.Exists(Legacy(m)) {
    }
  }

  /** From any state that has not been torn, running to the end is possible, without a crash. */
  lemma {:induction false} CanFinish(claims: Claims, start: Disk, w: World) returns (actions: seq<Action>)
    requires Inv(claims, start, w)
    ensures Legal(claims, w, actions) && Throughout(claims, start, w, actions)
    ensures Finished(claims, Run(claims, w, actions))
    ensures Crash !in actions
    decreases |Remaining(claims, w)|, if w.phase.Off? then 7 else if w.phase.Choosing? then 6 else 5 - w.phase.stage
  {
    hide Disk.Content, Disk.Exists, Disk.Wf, Untouched, Statement;
    if w.phase.Choosing? && forall n :: !Planned(claims, w.disk, n) {
      return [];
    }
    var a := Advance;
    if w.phase.Off? {
      a := Start;
    } else if w.phase.Choosing? {
      var n :| Planned(claims, w.disk, n);
      a := Pick(n);
    } else {
      assert NodeInv(claims, start, w, w.phase.n);
      AdvanceKeeps(claims, start, w);
      AdvanceShrinks(claims, start, w);
    }
    StepKeeps(claims, start, w, a);
    var w' := Exec(claims, w, a);
    assert Remaining(claims, w') <= Remaining(claims, w);
    SubsetSize(Remaining(claims, w'), Remaining(claims, w));
    var rest := CanFinish(claims, start, w');
    actions := [a] + rest;
    assert actions[1..] == rest;
  }

  // ---- Tearing ----

  lemma {:induction false} RunConcat(claims: Claims, w: World, a: seq<Action>, b: seq<Action>)
    requires Legal(claims, w, a) && Legal(claims, Run(claims, w, a), b)
    ensures Legal(claims, w, a + b) && Run(claims, w, a + b) == Run(claims, Run(claims, w, a), b)
    decreases |a|
  {
    if a == [] {
      assert a + b == b;
    } else {
      RunConcat(claims, Exec(claims, w, a[0]), a[1..], b);
      assert (a + b)[1..] == a[1..] + b && (a + b)[0] == a[0];
    }
  }

  lemma RunOne(claims: Claims, w: World, a: Action)
    requires Enabled(claims, w, a)
    ensures Legal(claims, w, [a]) && Run(claims, w, [a]) == Exec(claims, w, a)
  {
    assert Legal(claims, Exec(claims, w, a), []) && [a][1..] == [];
  }

  /** `count` statements of a move. */
  lemma {:induction false} RunMove(claims: Claims, start: Disk, w: World, count: nat) returns (actions: seq<Action>, w': World)
    requires Inv(claims, start, w) && w.phase.Moving? && w.phase.stage + count <= 5 && Planned(claims, start, w.phase.n)
    ensures Legal(claims, w, actions) && Run(claims, w, actions) == w' && Inv(claims, start, w')
    ensures w.phase.stage + count < 5 ==> w'.phase == Moving(w.phase.n, w.phase.state, w.phase.stage + count)
    ensures count > 0 && w.phase.stage + count == 5 ==> w'.phase == Choosing
  {
    hide Disk.Content, Disk.Exists, Disk.Wf, Untouched, Statement;
    actions, w' := [], w;
    for i := 0 to count
      invariant Legal(claims, w, actions) && Run(claims, w, actions) == w' && Inv(claims, start, w')
      invariant w.phase.stage + i < 5 ==> w'.phase == Moving(w.phase.n, w.phase.state, w.phase.stage + i)
      invariant i > 0 && w.phase.stage + i == 5 ==> w'.phase == Choosing
    {
      AdvanceKeeps(claims, start, w');
      RunOne(claims, w', Advance);
      RunConcat(claims, w, actions, [Advance]);
      actions, w' := actions + [Advance], Exec(claims, w', Advance);
    }
  }

  /**
   If a planned legacy document is tearable, one crash between the two statements of its
   delete is enough: the next run finds the remains, copies them over the good scoped
   document, and finishes with part of the content gone for good.
   */
  lemma TornDeleteLoses(claims: Claims, start: Disk, n: Id) returns (actions: seq<Action>)
    requires start.Wf() && Planned(claims, start, n) && Tearable(start, Legacy(n))
    ensures Legal(claims, World(start, Off), actions)
    ensures var w := Run(claims, World(start, Off), actions);
            && Finished(claims, w)
            && !w.disk.Exists(Legacy(n))
            && w.disk.Content(Scoped(claims, n)) < start.Content(Legacy(n))
  {
    hide Disk.Content, Disk.Exists, Disk.Wf, Untouched, Statement, Run, Legal;
    var w0 := World(start, Off);
    Initially(claims, start);
    RunOne(claims, w0, Start);
    var w1 := Exec(claims, w0, Start);
    StepKeeps(claims, start, w0, Start);
    RunOne(claims, w1, Pick(n));
    var w2 := Exec(claims, w1, Pick(n));
    StepKeeps(claims, start, w1, Pick(n));
    var move, w3 := RunMove(claims, start, w2, 4);
    var w4 := World(w3.disk, Off);
    RunOne(claims, w3, Crash);
    Torn(claims, start, w3, n);
    Initially(claims, w3.disk);
    var rest := CanFinish(claims, w3.disk, w4);
    FinishedIsUninterrupted(claims, w3.disk, rest);
    RunConcat(claims, w0, [Start], [Pick(n)]);
    RunConcat(claims, w0, [Start] + [Pick(n)], move);
    RunConcat(claims, w0, [Start] + [Pick(n)] + move, [Crash]);
    RunConcat(claims, w0, [Start] + [Pick(n)] + move + [Crash], rest);
    actions := [Start] + [Pick(n)] + move + [Crash] + rest;
  }

  lemma Torn(claims: Claims, start: Disk, w: World, n: Id)
    requires start.Wf() && Planned(claims, start, n) && Tearable(start, Legacy(n))
    requires Inv(claims, start, w) && w.phase.Moving? && w.phase.n == n && w.phase.stage == 4
    ensures Planned(claims, w.disk, n)
    ensures w.disk.Content(Legacy(n)) < start.Content(Legacy(n))
  {
    hide Disk.Wf;
    assert NodeInv(claims, start, w, n);
    ContentIsEverything(w.disk, Legacy(n));
    ContentIsEverything(start, Legacy(n));
  }

  lemma {:induction false} NoTears(claims: Claims, start: Disk, w: World, actions: seq<Action>)
    requires Inv(claims, start, w) && Legal(claims, w, actions)
    requires forall n :: Planned(claims, start, n) ==> !Tearable(start, Legacy(n))
    ensures Throughout(claims, start, w, actions)
    decreases |actions|
  {
    hide Disk.Content, Disk.Exists, Disk.Wf, Untouched, Statement, Tearable, NodeInv;
    if actions != [] {
      StepKeeps(claims, start, w, actions[0]);
      NoTears(claims, start, Exec(claims, w, actions[0]), actions[1..]);
    }
  }

  /**
   Crash safety, exactly: every finished migration, however it was interrupted, has copied
   every planned node whole, if and only if no planned legacy document is tearable, that
   is, has log rows left that do not cover its snapshot.
   */
  lemma CrashSafeExactly(claims: Claims, start: Disk)
    requires start.Wf()
    ensures (forall actions :: Legal(claims, World(start, Off), actions)
                               && Finished(claims, Run(claims, World(start, Off), actions)) ==>
               AllCopied(claims, start, Run(claims, World(start, Off), actions).disk))
       <==> (forall n :: Planned(claims, start, n) ==> !Tearable(start, Legacy(n)))
  {
    hide Disk.Content, Disk.Exists, Disk.Wf, Untouched, Statement, Tearable, Run, Legal;
    var w0 := World(start, Off);
    Initially(claims, start);
    if n :| Planned(claims, start, n) && Tearable(start, Legacy(n)) {
      var bad := TornDeleteLoses(claims, start, n);
      assert !Copied(claims, start, Run(claims, w0, bad).disk, n);
      assert !AllCopied(claims, start, Run(claims, w0, bad).disk);
    } else {
      forall actions | Legal(claims, w0, actions) && Finished(claims, Run(claims, w0, actions))
        ensures AllCopied(claims, start, Run(claims, w0, actions).disk)
      {
        NoTears(claims, start, w0, actions);
        FinishedIsUninterrupted(claims, start, actions);
      }
    }
  }

  ghost predicate AllCopied(claims: Claims, start: Disk, disk: Disk) {
    forall n :: Planned(claims, start, n) ==> Copied(claims, start, disk, n)
  }
}
