/**
  Two schedules from start-up that leave a readable slot behind the tail, one by a hit in the middle
  of an eviction, one by a SetCache that swaps late. The ring holds two gibibytes meanwhile, as the
  collector rests below that.
 */
module LeftBehind {
  import opened Node
  import opened Ring
  import opened ArenaModel
  import opened Stragglers

  /** How many records of one unit each bring the window to the low watermark. */
  const LAP: nat := LOW_WATERMARK_THRESHOLD / UNIT

  /** Record i of the schedules below: every LAP-th belongs to slot 0, the others to slot 1, which is dead. */
  function RecAt(i: nat): Rec {
    Rec(i * UNIT, if i % LAP == 0 then 0 else 1, UNIT)
  }

  /** The ring holds records base to base + count - 1, and the collector is between two iterations. */
  predicate Steady(s: State, base: nat, count: nat, cell: Cell, thread: Thread) {
    && s.cells == [cell, Cell(L.DEAD_WORD, 0)] && s.threads == [thread, Resting] && s.phase == Looking
    && |s.queue| == count && (forall i :: 0 <= i < count ==> s.queue[i] == RecAt(base + i))
    && s.head == (base + count) * UNIT
  }

  lemma Extended(s: State, actions: seq<Action>, a: Action)
    ensures Schedule(s, actions + [a]) == Apply(Schedule(s, actions), a)
  {
  }

  lemma AfterThree(s: State, actions: seq<Action>, a: Action, b: Action, c: Action) returns (actions': seq<Action>)
    ensures Schedule(s, actions') == Apply(Apply(Apply(Schedule(s, actions), a), b), c)
  {
    hide Apply, Schedule;
    actions' := actions + [a] + [b] + [c];
    Extended(s, actions, a);
    Extended(s, actions + [a], b);
    Extended(s, actions + [a] + [b], c);
  }

  /** A SetCache for the dead slot 1 leaves one more record behind. */
  lemma OneMoreRecord(s: State, base: nat, count: nat, cell: Cell, thread: Thread)
    requires Steady(s, base, count, cell, thread) && 0 < count < 2 * LAP - 1 && (base + count) % LAP != 0
    ensures Steady(Apply(Apply(Apply(s, Allocate(1, 1, UNIT - HDR)), LoadWord(1)), Swap(1)),
                   base, count + 1, cell, thread)
  {
    var r := Apply(s, Allocate(1, 1, UNIT - HDR));
    RecordAllocated(s, base, count, cell, thread);
    SetCacheGivesUp(r, RecAt(base + count));
    hide Apply;
  }

  lemma RecordAllocated(s: State, base: nat, count: nat, cell: Cell, thread: Thread)
    requires Steady(s, base, count, cell, thread) && 0 < count < 2 * LAP - 1 && (base + count) % LAP != 0
    ensures var r := RecAt(base + count);
            Apply(s, Allocate(1, 1, UNIT - HDR)) ==
            s.(queue := s.queue + [r], head := r.start + UNIT, threads := [thread, Holding(r)])
  {
    UnitsNeedNoPad(base + count);
    assert s.queue[0] == RecAt(base + 0);
    hide Pad;
    assert Next(s, 1, UNIT) == RecAt(base + count);
  }

  lemma UnitsNeedNoPad(i: nat)
    ensures Pad(i * UNIT) == 0
  {
    var p, r := i / 4096, i % 4096;
    BorderOfUnits(p, r);
    assert i == 4096 * p + r;
  }

  lemma BorderOfUnits(p: nat, r: nat)
    requires r < 4096
    ensures Pad((4096 * p + r) * UNIT) == 0
  {
    var v := (4096 * p + r) * UNIT;
    assert v == p * SIZE + r * UNIT && r * UNIT <= SIZE - UNIT;
    RemainderIs(v, p, r * UNIT);
  }

  lemma RemainderIs(v: nat, p: nat, r: nat)
    requires r < SIZE && v == p * SIZE + r
    ensures v % SIZE == r
  {
  }

  lemma SetCacheGivesUp(s: State, r: Rec)
    requires |s.cells| == 2 && s.cells[1].word.state.Dead?
    requires |s.threads| == 2 && s.threads[1] == Holding(r) && r.node == 1
    ensures Apply(Apply(s, LoadWord(1)), Swap(1)) == s.(threads := s.threads[1 := Resting])
  {
  }

  /** The collector passes over a record of the dead slot 1. */
  lemma OneRecordPassed(s: State, base: nat, count: nat, cell: Cell, thread: Thread)
    requires Steady(s, base, count, cell, thread) && count >= LAP && base % LAP != 0
    ensures Steady(Apply(Apply(Apply(s, Meet), Judge), Pass), base + 1, count - 1, cell, thread)
  {
    assert s.queue[0] == RecAt(base + 0);
    forall i | 0 <= i < count - 1 ensures s.queue[1..][i] == RecAt(base + 1 + i) {
      assert s.queue[i + 1] == RecAt(base + (i + 1));
    }
  }

  lemma FillUp(s: State, actions: seq<Action>, cell: Cell, thread: Thread) returns (actions': seq<Action>)
    requires Steady(Schedule(s, actions), 0, 1, cell, thread)
    ensures Steady(Schedule(s, actions'), 0, LAP, cell, thread)
  {
    hide Apply, Schedule, Steady;
    actions' := actions;
    var count: nat := 1;
    while count < LAP
      invariant 1 <= count <= LAP && Steady(Schedule(s, actions'), 0, count, cell, thread)
    {
      OneMoreRecord(Schedule(s, actions'), 0, count, cell, thread);
      actions' := AfterThree(s, actions', Allocate(1, 1, UNIT - HDR), LoadWord(1), Swap(1));
      count := count + 1;
    }
  }

  lemma NotOfSlot0(i: nat)
    requires 0 < i < LAP
    ensures i % LAP != 0 && (i + LAP) % LAP != 0
  {
  }

  /** The collector goes round, while the ring stays as full as it is. */
  lemma GoRound(s: State, actions: seq<Action>, cell: Cell, thread: Thread) returns (actions': seq<Action>)
    requires Steady(Schedule(s, actions), 1, LAP, cell, thread)
    ensures Steady(Schedule(s, actions'), LAP, LAP, cell, thread)
  {
    hide Apply, Schedule, Steady;
    actions' := actions;
    var base: nat := 1;
    while base < LAP
      invariant 1 <= base <= LAP && Steady(Schedule(s, actions'), base, LAP, cell, thread)
    {
      NotOfSlot0(base);
      OneRecordPassed(Schedule(s, actions'), base, LAP, cell, thread);
      actions' := AfterThree(s, actions', Meet, Judge, Pass);
      OneMoreRecord(Schedule(s, actions'), base + 1, LAP - 1, cell, thread);
      actions' := AfterThree(s, actions', Allocate(1, 1, UNIT - HDR), LoadWord(1), Swap(1));
      base := base + 1;
    }
  }

  predicate Fresh(s: State) {
    s == State([Cell(L.DEAD_WORD, 0), Cell(L.DEAD_WORD, 0)], [], 0, [Resting, Resting], Looking)
  }

  lemma SlotFilled(s: State) returns (actions: seq<Action>)
    requires Fresh(s)
    ensures Steady(Schedule(s, actions), 0, 1, Cell(Packed(Ready, Hot, UNIT - HDR, 0), 0), Resting)
  {
    assert Schedule(s, []) == s;
    SlotClaimed(s);
    actions := AfterThree(s, [], Load(0, L.Claim, 0), Swap(0), Allocate(0, 0, UNIT - HDR));
    ClaimFilled(Schedule(s, actions));
    hide Apply, Schedule;
    Extended(s, actions, LoadWord(0));
    Extended(s, actions + [LoadWord(0)], Swap(0));
    actions := actions + [LoadWord(0)] + [Swap(0)];
  }

  lemma SlotClaimed(s: State)
    requires Fresh(s)
    ensures Steady(Apply(Apply(Apply(s, Load(0, L.Claim, 0)), Swap(0)), Allocate(0, 0, UNIT - HDR)), 0, 1,
                   Cell(Packed(Pending, Hot, 0, 0), 0), Holding(RecAt(0)))
  {
    var r := Apply(Apply(s, Load(0, L.Claim, 0)), Swap(0));
    assert r == s.(cells := [Cell(Packed(Pending, Hot, 0, 0), 0), Cell(L.DEAD_WORD, 0)]);
  }

  lemma ClaimFilled(s: State)
    requires Steady(s, 0, 1, Cell(Packed(Pending, Hot, 0, 0), 0), Holding(RecAt(0)))
    ensures Steady(Apply(Apply(s, LoadWord(0)), Swap(0)), 0, 1, Cell(Packed(Ready, Hot, UNIT - HDR, 0), 0), Resting)
  {
    var r := Apply(s, LoadWord(0));
    assert r == s.(threads := [Filling(RecAt(0), Packed(Pending, Hot, 0, 0)), Resting]);
  }

  /** The first encounter: slot 0's record is hot and gets its second chance. */
  lemma SlotRescued(s: State)
    requires Steady(s, 0, LAP, Cell(Packed(Ready, Hot, UNIT - HDR, 0), 0), Resting)
    ensures Steady(Apply(Apply(Apply(Apply(s, Meet), Judge), Take), Pass), 1, LAP,
                   Cell(Packed(Ready, Cold, UNIT - HDR, LAP * UNIT), LAP * UNIT), Resting)
  {
    assert s.queue[0] == RecAt(0 + 0) && Pad(s.head) == 0;
    var r := Apply(Apply(s, Meet), Judge);
    assert r.queue == s.queue + [RecAt(LAP)];
    forall i | 0 <= i < LAP ensures r.queue[1..][i] == RecAt(1 + i) {
      assert i < LAP - 1 ==> s.queue[i + 1] == RecAt(0 + (i + 1));
    }
  }

  /** The second: it is cold, but hit between the collector's load and its swap. */
  lemma SlotHitTooLate(s: State)
    requires Steady(s, LAP, LAP, Cell(Packed(Ready, Cold, UNIT - HDR, LAP * UNIT), LAP * UNIT), Resting)
    ensures !NoneBehind(Apply(Apply(Apply(Apply(Apply(s, Meet), Load(0, L.Hit, 0)), Swap(0)), Judge), Pass))
  {
    assert s.queue[0] == RecAt(LAP + 0) && s.queue[1] == RecAt(LAP + 1);
    var w := Packed(Ready, Cold, UNIT - HDR, LAP * UNIT);
    var r := Apply(Apply(Apply(s, Meet), Load(0, L.Hit, 0)), Swap(0));
    assert r == s.(phase := Met(w), cells := [Cell(w.(refBit := Hot), LAP * UNIT), Cell(L.DEAD_WORD, 0)]);
    EvictionFails(r, w);
  }

  lemma EvictionFails(s: State, w: Control)
    requires s.phase == Met(w) && w == Packed(Ready, Cold, UNIT - HDR, LAP * UNIT)
    requires |s.queue| >= 2 && s.queue[0] == RecAt(LAP) && s.queue[1] == RecAt(LAP + 1)
    requires |s.cells| == 2 && s.cells[0] == Cell(w.(refBit := Hot), LAP * UNIT)
    ensures !NoneBehind(Apply(Apply(s, Judge), Pass))
  {
    var r := Apply(Apply(s, Judge), Pass);
    assert !Ahead(r, 0);
  }

  /**
    A hit between the collector's load and its swap: the swap fails, the tail moves on nevertheless,
    and the slot just used stays readable behind it.
   */
  lemma HitLeavesSlotBehind(s: State) returns (actions: seq<Action>)
    requires Fresh(s)
    ensures !NoneBehind(Schedule(s, actions))
  {
    hide Apply, Schedule, Steady, NoneBehind;
    actions := SlotFilled(s);
    actions := FillUp(s, actions, Cell(Packed(Ready, Hot, UNIT - HDR, 0), 0), Resting);
    SlotRescued(Schedule(s, actions));
    actions := AfterThree(s, actions, Meet, Judge, Take);
    Extended(s, actions, Pass);
    actions := actions + [Pass];
    actions := GoRound(s, actions, Cell(Packed(Ready, Cold, UNIT - HDR, LAP * UNIT), LAP * UNIT), Resting);
    SlotHitTooLate(Schedule(s, actions));
    actions := AfterThree(s, actions, Meet, Load(0, L.Hit, 0), Swap(0));
    Extended(s, actions, Judge);
    Extended(s, actions + [Judge], Pass);
    actions := actions + [Judge] + [Pass];
  }

  lemma RecordWritten(s: State)
    requires Fresh(s)
    ensures Steady(Apply(s, Allocate(0, 0, UNIT - HDR)), 0, 1, Cell(L.DEAD_WORD, 0), Holding(RecAt(0)))
  {
  }

  lemma SlotFilledTooLate(s: State)
    requires Steady(s, 0, LAP, Cell(L.DEAD_WORD, 0), Holding(RecAt(0)))
    ensures var r := Apply(Apply(Apply(s, Meet), Judge), Pass);
            !NoneBehind(Apply(Apply(Apply(Apply(r, Load(1, L.Claim, 0)), Swap(1)), LoadWord(0)), Swap(0)))
  {
    assert s.queue[0] == RecAt(0 + 0) && s.queue[1] == RecAt(0 + 1);
    var r := Apply(Apply(Apply(s, Meet), Judge), Pass);
    assert r == s.(queue := s.queue[1..]);
    FillBehindTail(r);
  }

  lemma FillBehindTail(s: State)
    requires s.queue != [] && s.queue[0] == RecAt(1)
    requires s.cells == [Cell(L.DEAD_WORD, 0), Cell(L.DEAD_WORD, 0)] && s.threads == [Holding(RecAt(0)), Resting]
    ensures !NoneBehind(Apply(Apply(Apply(Apply(s, Load(1, L.Claim, 0)), Swap(1)), LoadWord(0)), Swap(0)))
  {
    var r := Apply(Apply(s, Load(1, L.Claim, 0)), Swap(1));
    assert r == s.(cells := [Cell(Packed(Pending, Hot, 0, 0), 0), Cell(L.DEAD_WORD, 0)]);
    var r' := Apply(Apply(r, LoadWord(0)), Swap(0));
    assert !Ahead(r', 0);
  }

  /**
    A SetCache that swaps late: the collector has passed over its record, because the slot was not
    claimed yet, and the slot it then fills is behind the tail from the start.
   */
  lemma LateFillIsBehind(s: State) returns (actions: seq<Action>)
    requires Fresh(s)
    ensures !NoneBehind(Schedule(s, actions))
  {
    assert Schedule(s, []) == s;
    hide Apply, Schedule, Steady, NoneBehind;
    RecordWritten(s);
    Extended(s, [], Allocate(0, 0, UNIT - HDR));
    actions := FillUp(s, [] + [Allocate(0, 0, UNIT - HDR)], Cell(L.DEAD_WORD, 0), Holding(RecAt(0)));
    SlotFilledTooLate(Schedule(s, actions));
    actions := AfterThree(s, actions, Meet, Judge, Pass);
    actions := AfterThree(s, actions, Load(1, L.Claim, 0), Swap(1), LoadWord(0));
    Extended(s, actions, Swap(0));
    actions := actions + [Swap(0)];
  }
}
