/**
  Records that no readable slot points at. A SetCache that reports failure leaves one behind; no
  later step of a run adopts it, and the collector clears it away without touching the map.
 */
module Orphans {
  import opened Ring
  import opened ArenaModel
  import opened Invariant
  import opened Refinement
  import opened Runs

  predicate Claims(a: Arena, n: nat, r: Record) {
    IsReady(a, n) && r.node == n && a.nodes[n].control.offset == r.start % OFFSET_MODULUS
  }

  /** A record that no readable slot points at. */
  ghost predicate Orphan(a: Arena, r: Record) {
    forall n: nat :: !Claims(a, n, r)
  }

  /** The next record to be written has an offset that no stored word of the window aliases. */
  lemma NewOffsetIsNew(a: Arena, q: seq<Record>, i: nat)
    requires Inv(a, q) && i < |q| && a.head + Pad(a.head) <= a.tail + SIZE
    ensures q[i].start % OFFSET_MODULUS != (a.head + Pad(a.head)) % OFFSET_MODULUS
  {
    if q[i].start % OFFSET_MODULUS == (a.head + Pad(a.head)) % OFFSET_MODULUS {
      MaskedInjective(q[i].start, a.head + Pad(a.head), a.tail);
    }
  }

  /** The record left behind by a SetCache that reports failure, even one that overshoots. */
  lemma FailedSetLeavesOrphan(a: Arena, q: seq<Record>, node: nat, payload: seq<Byte>)
    requires Inv(a, q) && node < TOTAL_MAX_SLOTS && SetCache(a, node, payload).1 == Ok(false)
    ensures Orphan(SetCache(a, node, payload).0, Record(a.head + Pad(a.head), node, payload))
  {
    AllocateGrants(a, q, |payload|);
    if IsReady(a, node) {
      var i :| Owns(q, i, node, a.nodes[node].control);
      NewOffsetIsNew(a, q, i);
    }
  }

  // ----- one step -----

  lemma SetKeepsOrphan(a: Arena, q: seq<Record>, i: nat, e: Event)
    requires Inv(a, q) && i < |q| && InTable(e) && e.DoSet? && Orphan(a, q[i])
    ensures Orphan(Step(a, e).0, q[i])
  {
    var a' := SetCache(a, e.target, e.payload).0;
    if SetCache(a, e.target, e.payload).1.Ok? {
      AllocateGrants(a, q, |e.payload|);
      NewOffsetIsNew(a, q, i);
    }
    hide Inv, Put, RecordBytes;
    forall n: nat ensures !Claims(a', n, q[i]) {
      assert !Claims(a, n, q[i]);
    }
  }

  lemma RescueKeepsOrphan(a: Arena, q: seq<Record>, i: nat)
    requires Inv(a, q) && i < |q| && Orphan(a, q[i]) && Collect(a).1.Rescued?
    ensures Orphan(Collect(a).0, q[i])
  {
    RescueCopiesTheOldest(a, q);
    NewOffsetIsNew(a, q, i);
    hide Inv, Collect, Append;
    forall n: nat ensures !Claims(Collect(a).0, n, q[i]) {
      assert !Claims(a, n, q[i]);
    }
  }

  lemma CollectKeepsOrphan(a: Arena, q: seq<Record>, i: nat)
    requires Inv(a, q) && i < |q| && Orphan(a, q[i])
    ensures Orphan(Collect(a).0, q[i])
  {
    hide Inv, Put, Slice, RecordBytes, HeaderAt;
    if Collect(a).1.Rescued? {
      RescueKeepsOrphan(a, q, i);
    } else {
      forall n: nat ensures !Claims(Collect(a).0, n, q[i]) {
        assert !Claims(a, n, q[i]);
      }
    }
  }

  lemma SlotStepKeepsOrphan(a: Arena, r: Record, e: Event)
    requires InTable(e) && !e.DoSet? && !e.DoCollect? && Orphan(a, r)
    ensures Orphan(Step(a, e).0, r)
  {
    forall n: nat ensures !Claims(Step(a, e).0, n, r) {
      assert !Claims(a, n, r);
    }
  }

  /** Nothing that happens next makes a slot point at an orphan. */
  lemma StepKeepsOrphan(a: Arena, q: seq<Record>, i: nat, e: Event)
    requires Sound(a, q) && i < |q| && InTable(e) && (e.DoCollect? ==> SpanFits(a)) && Orphan(a, q[i])
    ensures Orphan(Step(a, e).0, q[i])
  {
    hide Inv, Sound, SpanFits, Orphan;
    SoundMeansInv(a, q);
    if e.DoSet? {
      if SpanFits(a) {
        SetKeepsOrphan(a, q, i, e);
      } else {
        OvershotStaysOvershot(a, q, e);
      }
    } else if e.DoCollect? {
      CollectKeepsOrphan(a, q, i);
    } else {
      SlotStepKeepsOrphan(a, q[i], e);
    }
  }

  // ----- being allocated -----

  /** While r is allocated the tail has not passed it, and from then on the tail is behind it. */
  ghost predicate Placed(a: Arena, q: seq<Record>, r: Record) {
    && (r in q <==> a.tail < End(r))
    && End(r) <= a.head
  }

  lemma AppendedIsPlaced(a: Arena, q: seq<Record>, e: Event)
    requires Sound(a, q) && InTable(e) && e.DoSet? && SetCache(a, e.target, e.payload).1.Ok?
    ensures var r := Record(a.head + Pad(a.head), e.target, e.payload);
            NextQueue(a, q, e) == q + [r] && Placed(Step(a, e).0, q + [r], r)
  {
    if !SpanFits(a) {
      OvershotStaysOvershot(a, q, e);
    }
  }

  lemma SetKeepsPlaced(a: Arena, q: seq<Record>, r: Record, e: Event)
    requires Placed(a, q, r) && InTable(e) && e.DoSet?
    ensures Placed(Step(a, e).0, NextQueue(a, q, e), r)
  {
  }

  /** The oldest record goes, and its copy, if there is one, lies behind everything allocated so far. */
  lemma PopKeepsPlaced(a: Arena, q: seq<Record>, r: Record, b: Arena, copies: seq<Record>)
    requires Inv(a, q) && q != [] && q[0].start == a.tail && Placed(a, q, r)
    requires b.tail == End(q[0]) && b.head >= a.head
    requires forall i :: 0 <= i < |copies| ==> copies[i].start >= a.head
    ensures Placed(b, q[1..] + copies, r)
  {
    if r in q && r != q[0] {
      var i :| 0 <= i < |q| && q[i] == r;
      assert q[1..][i - 1] == r;
    }
  }

  lemma CollectKeepsPlaced(a: Arena, q: seq<Record>, r: Record)
    requires Inv(a, q) && Placed(a, q, r)
    ensures Placed(Collect(a).0, QueueAfter(q, Collect(a).1), r)
  {
    hide Inv, Put, Slice, RecordBytes, HeaderAt, Placed;
    var (b, o) := Collect(a);
    CollectorSeesTheQueue(a, q);
    if o.Leapt? {
      LeapKeepsPlaced(a, q, r);
    } else if o.Skipped? || o.Evicted? {
      PopKeepsPlaced(a, q, r, b, []);
      assert q[1..] + [] == q[1..];
    } else if o.Rescued? {
      RescueCopiesTheOldest(a, q);
      PopKeepsPlaced(a, q, r, b, [Record(o.offset, o.node, q[0].payload)]);
    }
  }

  lemma LeapKeepsPlaced(a: Arena, q: seq<Record>, r: Record)
    requires Inv(a, q) && Placed(a, q, r) && Collect(a).1.Leapt?
    ensures Placed(Collect(a).0, q, r)
  {
    CollectorSeesTheQueue(a, q);
    assert r in q ==> q[0].start < End(r);
  }

  lemma StepKeepsPlaced(a: Arena, q: seq<Record>, r: Record, e: Event)
    requires Sound(a, q) && InTable(e) && (e.DoCollect? ==> SpanFits(a)) && Placed(a, q, r)
    ensures Placed(Step(a, e).0, NextQueue(a, q, e), r)
  {
    hide Inv, Sound, SpanFits, Placed;
    SoundMeansInv(a, q);
    if e.DoSet? {
      SetKeepsPlaced(a, q, r, e);
    } else if e.DoCollect? {
      CollectKeepsPlaced(a, q, r);
    } else {
      SlotStepKeepsWindow(a, e);
      PlacedByWindow(a, Step(a, e).0, q, r);
    }
  }

  lemma PlacedByWindow(a: Arena, b: Arena, q: seq<Record>, r: Record)
    requires Placed(a, q, r) && b.head == a.head && b.tail == a.tail
    ensures Placed(b, q, r)
  {
  }

  // ----- over whole runs -----

  /** The record that step j of a run writes. */
  function Written(states: seq<Arena>, events: seq<Event>, j: nat): Record
    requires j < |events| && j < |states| && events[j].DoSet? && events[j].target >= 0
  {
    Record(states[j].head + Pad(states[j].head), events[j].target, events[j].payload)
  }

  predicate FailedSetAt(states: seq<Arena>, events: seq<Event>, j: nat)
    requires j < |events| && j < |states| && InTable(events[j])
  {
    events[j].DoSet? && events[j].target >= 0 && ReplyAt(states, events, j) == Answered(Ok(false))
  }

  lemma FailedSetStep(a: Arena, q: seq<Record>, e: Event)
    requires Sound(a, q) && InTable(e) && e.DoSet? && e.target >= 0
    requires Step(a, e).1 == Answered(Ok(false))
    ensures var r, q', b := Record(a.head + Pad(a.head), e.target, e.payload), NextQueue(a, q, e), Step(a, e).0;
            r in q' && Placed(b, q', r) && Orphan(b, r)
  {
    hide Inv, Sound, SpanFits, Orphan, Placed, Append, Allocate, Pad;
    SoundMeansInv(a, q);
    AppendedIsPlaced(a, q, e);
    if SpanFits(a) {
      FailedSetLeavesOrphan(a, q, e.target, e.payload);
    } else {
      OvershotStaysOvershot(a, q, e);
    }
  }

  lemma OrphanIsBorn(states: seq<Arena>, events: seq<Event>, j: nat)
    requires Run(states, events) && Settled(states, events) && j < |events| && FailedSetAt(states, events, j)
    ensures var r, q := Written(states, events, j), Allocated(states, events, j + 1);
            r in q && Placed(states[j + 1], q, r) && Orphan(states[j + 1], r)
  {
    hide Sound, Settled, Orphan, Placed, Step, NextQueue;
    RunIsSound(states, events, j);
    FailedSetStep(states[j], Allocated(states, events, j), events[j]);
  }

  /**
    Over every run: after a SetCache that reports failure, its record stays allocated until the
    tail has passed it, and no readable slot ever points at it.
   */
  lemma {:induction false} OrphanStaysOrphan(states: seq<Arena>, events: seq<Event>, j: nat, k: nat)
    requires Run(states, events) && Settled(states, events) && j < k <= |events| && FailedSetAt(states, events, j)
    ensures var r, q := Written(states, events, j), Allocated(states, events, k);
            Placed(states[k], q, r) && (r in q ==> Orphan(states[k], r))
  {
    hide Inv, Sound, SpanFits, Orphan, Placed, Step;
    if k == j + 1 {
      OrphanIsBorn(states, events, j);
    } else {
      OrphanStaysOrphan(states, events, j, k - 1);
      OrphanOneMoreStep(states, events, Written(states, events, j), k - 1);
    }
  }

  lemma OrphanOneMoreStep(states: seq<Arena>, events: seq<Event>, r: Record, k: nat)
    requires Run(states, events) && Settled(states, events) && k < |events|
    requires var q := Allocated(states, events, k); Placed(states[k], q, r) && (r in q ==> Orphan(states[k], r))
    ensures var q := Allocated(states, events, k + 1);
            Placed(states[k + 1], q, r) && (r in q ==> Orphan(states[k + 1], r))
  {
    hide Inv, Sound, SpanFits, Orphan, Step, NextQueue;
    var a, q, e := states[k], Allocated(states, events, k), events[k];
    RunIsSound(states, events, k);
    StepKeepsPlaced(a, q, r, e);
    TailNeverRetreats(a, e);
    if r in q {
      var i: nat :| i < |q| && q[i] == r;
      StepKeepsOrphan(a, q, i, e);
    }
  }

  lemma TailNeverRetreats(a: Arena, e: Event)
    requires InTable(e)
    ensures a.tail <= Step(a, e).0.tail
  {
    hide Put, Slice, RecordBytes, HeaderAt;
  }

  // ----- being reclaimed -----

  lemma OldestNeedsNoPad(a: Arena, q: seq<Record>)
    requires Inv(a, q) && q != [] && q[0].start == a.tail
    ensures Pad(a.tail) == 0 && q[0].node < TOTAL_MAX_SLOTS
  {
    assert Stored(a.mem, q[0]);
  }

  lemma DeadSlotsHoldNothing(a: Arena, n: nat)
    requires !IsReady(a, n)
    ensures Contents(a) - {n} == Contents(a)
  {
  }

  lemma OnlyOneSlotChanges(a: Arena, n: nat)
    requires Collect(a).1.Evicted? || Collect(a).1.Rescued? ==> n != Collect(a).1.node
    requires n < TOTAL_MAX_SLOTS
    ensures Collect(a).0.nodes[n] == a.nodes[n]
  {
    hide Put, Slice, RecordBytes, HeaderAt;
  }

  /**
    When the collector reaches an orphan, no readable slot and no readable payload changes.
    The space is reclaimed at once, unless the slot is pending with a word whose offset happens
    to match: then the record may be carried along, or the pending claim dropped.
   */
  lemma OrphanIsReclaimed(a: Arena, q: seq<Record>)
    requires Inv(a, q) && q != [] && q[0].start == a.tail && Orphan(a, q[0])
    requires a.head - a.tail >= LOW_WATERMARK_THRESHOLD
    ensures Contents(Collect(a).0) == Contents(a)
    ensures forall n: nat :: IsReady(a, n) ==> Collect(a).0.nodes[n] == a.nodes[n]
    ensures q[0].node < TOTAL_MAX_SLOTS
    ensures var c := a.nodes[q[0].node].control;
            if c.state.Pending? && c.offset == a.tail % OFFSET_MODULUS
            then Collect(a).1.Evicted? || Collect(a).1.Rescued? || Collect(a).1.RescueFailed?
            else Collect(a).1.Skipped? && Collect(a).0.tail == End(q[0])
  {
    hide Inv, Contents;
    WindowIsOrdered(a, q);
    SoundMeansInv(a, q);
    NoneMigrating(a, q);
    OldestNeedsNoPad(a, q);
    CollectorSeesTheQueue(a, q);
    assert !Claims(a, q[0].node, q[0]);
    CollectRefines(a, q);
    if !IsReady(a, q[0].node) {
      DeadSlotsHoldNothing(a, q[0].node);
    }
    forall n: nat | IsReady(a, n) ensures Collect(a).0.nodes[n] == a.nodes[n] {
      OnlyOneSlotChanges(a, n);
    }
  }

  /** Whenever a step of a run removes an orphan, every readable slot and payload stays as it was. */
  lemma RemovalIsNeutral(states: seq<Arena>, events: seq<Event>, j: nat, k: nat)
    requires Run(states, events) && Settled(states, events) && j < k < |events| && FailedSetAt(states, events, j)
    requires var r := Written(states, events, j);
             r in Allocated(states, events, k) && r !in Allocated(states, events, k + 1)
    ensures events[k].DoCollect? && states[k + 1].tail == End(Written(states, events, j))
    ensures Contents(states[k + 1]) == Contents(states[k])
    ensures forall n: nat :: IsReady(states[k], n) ==> states[k + 1].nodes[n] == states[k].nodes[n]
  {
    hide Inv, Sound, SpanFits, Orphan, Contents, Collect, IsReady;
    var r, a, q := Written(states, events, j), states[k], Allocated(states, events, k);
    OrphanStaysOrphan(states, events, j, k);
    RunIsSound(states, events, k);
    SoundMeansInv(a, q);
    OnlyCollectsRemove(a, q, r, events[k]);
    RemovedFromTheTail(a, q, r);
    OrphanIsReclaimed(a, q);
  }

  lemma OnlyCollectsRemove(a: Arena, q: seq<Record>, r: Record, e: Event)
    requires InTable(e) && r in q && r !in NextQueue(a, q, e)
    ensures e.DoCollect?
  {
  }

  lemma RemovedFromTheTail(a: Arena, q: seq<Record>, r: Record)
    requires Inv(a, q) && r in q && r !in QueueAfter(q, Collect(a).1)
    ensures q != [] && r == q[0] && q[0].start == a.tail && a.head - a.tail >= LOW_WATERMARK_THRESHOLD
    ensures Collect(a).0.tail == End(r)
  {
    hide Inv, Put, Slice, RecordBytes, HeaderAt;
    CollectorSeesTheQueue(a, q);
    WindowIsOrdered(a, q);
  }
}
