/**
 What one document should hold after a history of events, said without snapshots, log
 rows or caches: which logged updates are still in force.
 */
module Histories {
  import opened Basics
  import opened DocNames
  import opened Storage

  /** Nothing after position `i` clears the document, or tears it once `i` was saved. */
  predicate Survives(h: seq<Event>, i: int) {
    forall j :: 0 <= j < |h| && i < j ==>
      !h[j].Clear? && (h[j].Tear? ==> forall c :: 0 <= c < j && i < c ==> !h[c].Save?)
  }

  /** Nothing after position `i` clears or saves the document. */
  predicate InTail(h: seq<Event>, i: int) {
    forall j :: 0 <= j < |h| && i < j ==> !h[j].Clear? && !h[j].Save?
  }

  /** Nothing after position `i` clears or tears the document. */
  predicate Lasts(h: seq<Event>, i: int) {
    forall j :: 0 <= j < |h| && i < j ==> !h[j].Clear? && !h[j].Tear?
  }

  /** The join of the updates still in force. */
  ghost function Surviving(h: seq<Event>): Doc {
    set i, op | 0 <= i < |h| && h[i].Log? && Survives(h, i) && op in h[i].update :: op
  }

  /** The join of the updates in force that were not saved since. */
  ghost function Tail(h: seq<Event>): Doc {
    set i, op | 0 <= i < |h| && h[i].Log? && InTail(h, i) && op in h[i].update :: op
  }

  /** Some update is in force, or the document was saved and the save stands. */
  ghost predicate Present(h: seq<Event>) {
    || (exists i :: 0 <= i < |h| && h[i].Log? && Survives(h, i))
    || (exists i :: 0 <= i < |h| && h[i].Save? && Lasts(h, i))
  }

  ghost predicate HasTail(h: seq<Event>) {
    exists i :: 0 <= i < |h| && h[i].Log? && InTail(h, i)
  }

  ghost function Held(h: seq<Event>): Stored {
    Stored(Surviving(h), Tail(h), Present(h), HasTail(h))
  }

  /** How one more event changes what is in force at each earlier position. */
  lemma PositionStep(h: seq<Event>, e: Event, i: int)
    requires i < |h|
    ensures Survives(h + [e], i) <==> if e.Clear? then false else if e.Tear? then InTail(h, i) else Survives(h, i)
    ensures InTail(h + [e], i) <==> InTail(h, i) && !e.Clear? && !e.Save?
    ensures Lasts(h + [e], i) <==> Lasts(h, i) && !e.Clear? && !e.Tear?
  {
    var h' := h + [e];
    assert h'[|h|] == e && forall j :: 0 <= j < |h| ==> h'[j] == h[j];
    if Survives(h', i) {
      assert !h'[|h|].Clear?;
      assert Survives(h, i) by {
        forall j | 0 <= j < |h| && i < j
          ensures !h[j].Clear? && (h[j].Tear? ==> forall c :: 0 <= c < j && i < c ==> !h[c].Save?)
        {
          assert !h'[j].Clear?;
        }
      }
    }
    if e.Tear? && InTail(h, i) {
      assert Survives(h', i);
    }
  }

  lemma LastPosition(h: seq<Event>, e: Event)
    ensures Survives(h + [e], |h|) && InTail(h + [e], |h|) && Lasts(h + [e], |h|)
  {
  }

  lemma PositionsStep(h: seq<Event>, e: Event)
    ensures forall i :: 0 <= i < |h| ==> (h + [e])[i] == h[i]
    ensures (h + [e])[|h|] == e
    ensures forall i :: 0 <= i < |h| ==>
              (Survives(h + [e], i) <==> if e.Clear? then false else if e.Tear? then InTail(h, i) else Survives(h, i))
    ensures forall i :: 0 <= i < |h| ==> (InTail(h + [e], i) <==> InTail(h, i) && !e.Clear? && !e.Save?)
    ensures forall i :: 0 <= i < |h| ==> (Lasts(h + [e], i) <==> Lasts(h, i) && !e.Clear? && !e.Tear?)
  {
    hide Survives, InTail, Lasts;
    forall i | 0 <= i < |h|
      ensures Survives(h + [e], i) <==> if e.Clear? then false else if e.Tear? then InTail(h, i) else Survives(h, i)
      ensures InTail(h + [e], i) <==> InTail(h, i) && !e.Clear? && !e.Save?
      ensures Lasts(h + [e], i) <==> Lasts(h, i) && !e.Clear? && !e.Tear?
    {
      PositionStep(h, e, i);
    }
  }

  lemma SurvivingStep(h: seq<Event>, e: Event)
    ensures Surviving(h + [e]) == Happen(e, Held(h)).content
    ensures Tail(h + [e]) == Happen(e, Held(h)).unsaved
  {
    hide Survives, InTail, Lasts, Present, HasTail;
    PositionsStep(h, e);
    LastPosition(h, e);
  }

  lemma PresentStep(h: seq<Event>, e: Event)
    ensures Present(h + [e]) <==> Happen(e, Held(h)).present
    ensures HasTail(h + [e]) <==> Happen(e, Held(h)).hasRows
  {
    hide Survives, InTail, Lasts, Surviving, Tail;
    PositionsStep(h, e);
    LastPosition(h, e);
  }

  /** One more event acts on what is held as it acts on storage. */
  lemma HeldStep(h: seq<Event>, e: Event)
    ensures Held(h + [e]) == Happen(e, Held(h))
  {
    hide Surviving, Tail, Present, HasTail;
    SurvivingStep(h, e);
    PresentStep(h, e);
  }

  lemma {:induction false} HeldSteps(h: seq<Event>, t: seq<Event>)
    ensures Held(h + t) == HappenAll(t, Held(h))
    decreases |t|
  {
    hide Held, Happen;
    if t == [] {
      assert h + t == h;
    } else {
      var rest, last := t[..|t| - 1], t[|t| - 1];
      HeldSteps(h, rest);
      HeldStep(h + rest, last);
      assert h + t == h + rest + [last];
    }
  }

  /** The join of everything logged since the document was last cleared. */
  ghost function SinceCleared(h: seq<Event>): Doc {
    set i, op | 0 <= i < |h| && h[i].Log? && (forall j :: i < j < |h| ==> !h[j].Clear?) && op in h[i].update :: op
  }

  /** Without torn deletes, what is in force is everything logged since the last clearing. */
  lemma UntornIsEverything(h: seq<Event>)
    requires forall j :: 0 <= j < |h| ==> !h[j].Tear?
    ensures Surviving(h) == SinceCleared(h)
  {
    forall i | 0 <= i < |h| ensures Survives(h, i) <==> forall j :: i < j < |h| ==> !h[j].Clear? {
    }
  }

  /** The history that leads to the database a run starts from. */
  ghost function Past(disk: Disk, x: DocName): seq<Event> {
    (if x in disk.snapshots then [Log(disk.snapshots[x].state), Save] else [])
    + (if disk.Rows(x) != [] then [Log(Join(disk.Rows(x)))] else [])
  }

  lemma NothingYet()
    ensures Held([]) == NOTHING_STORED
  {
  }

  lemma PastIsHeld(disk: Disk, x: DocName)
    requires disk.Wf()
    ensures Held(Past(disk, x)) == disk.At(x)
  {
    hide Held;
    NothingYet();
    ContentIsEverything(disk, x);
    var h1 := if x in disk.snapshots then [Log(disk.snapshots[x].state), Save] else [];
    if x in disk.snapshots {
      HeldStep([], Log(disk.snapshots[x].state));
      HeldStep([Log(disk.snapshots[x].state)], Save);
      assert [] + [Log(disk.snapshots[x].state)] == [Log(disk.snapshots[x].state)];
      assert [Log(disk.snapshots[x].state)] + [Save] == h1;
    }
    if disk.Rows(x) != [] {
      HeldStep(h1, Log(Join(disk.Rows(x))));
    } else {
      assert h1 + [] == h1;
    }
  }
}
