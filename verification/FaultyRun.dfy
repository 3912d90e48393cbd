/**
  A run from start-up in which one SetCache overshoots, the collector loses its way, and a hit
  then serves bytes that were never stored for the slot. It shows that the side condition of
  Runs.HitServesLastFill cannot be dropped: a collector that runs on an overshot window is enough.
 */
module FaultyRun {
  import opened Node
  import opened Ring
  import opened ArenaModel
  import opened Invariant
  import opened Runs

  const FIRST: nat := UNIT - 5
  const VICTIM_LENGTH: nat := UNIT - HDR
  const BYTE_STEPS: nat := 40

  const FIRST_RECORD := Record(0, 1, Zeros(FIRST - HDR))
  const VICTIM_RECORD := Record(FIRST, 0, Zeros(VICTIM_LENGTH))

  // ----- the run under construction -----

  /** A run whose step 2 is the latest fill of slot 0, with its final state. */
  ghost predicate Story(states: seq<Arena>, events: seq<Event>, a: Arena) {
    && Run(states, events) && |events| >= 3 && states[|events|] == a
    && events[2] == DoSet(0, Zeros(VICTIM_LENGTH))
    && LastFill(states, events, |events|, 0, 2)
  }

  predicate LeavesSlot0(e: Event, r: Reply) {
    !(e.DoSet? && e.target == 0) && r != Collected(Evicted(0))
  }

  lemma Continue(states: seq<Arena>, events: seq<Event>, a: Arena, e: Event)
    requires Story(states, events, a) && InTable(e) && LeavesSlot0(e, Step(a, e).1)
    ensures Story(states + [Step(a, e).0], events + [e], Step(a, e).0)
  {
    hide Step;
    var states', events' := states + [Step(a, e).0], events + [e];
    forall k | 0 <= k < |events'| ensures InTable(events'[k]) && states'[k + 1] == Step(states'[k], events'[k]).0 {
      assert k < |events| ==> InTable(events[k]) && states[k + 1] == Step(states[k], events[k]).0;
    }
    assert Run(states', events');
    forall i | 2 < i < |events'| ensures !FillAt(states', events', i, 0) && !EvictionAt(states', events', i, 0) {
      if i < |events| {
        assert !FillAt(states, events, i, 0) && !EvictionAt(states, events, i, 0);
      }
    }
    assert FillAt(states, events, 2, 0);
    assert FillAt(states', events', 2, 0);
  }

  // ----- filling the ring -----

  /** Slot 0 is readable, slot 1 dead, and k orphans of one unit each follow slot 0's record. */
  ghost predicate Filling(a: Arena, q: seq<Record>, k: nat) {
    && Inv(a, q) && |q| >= 2 && q[0] == FIRST_RECORD && q[1] == VICTIM_RECORD
    && a.tail == 0 && a.head == FIRST + (k + 1) * UNIT
    && a.nodes[0].control == Control(Ready, Hot, VICTIM_LENGTH, FIRST)
    && a.nodes[1].control.state.Dead?
  }

  lemma FirstTwoSteps(a: Arena) returns (q: seq<Record>)
    requires a == Step(Step(Initial(), DoSet(1, Zeros(FIRST - HDR))).0, DoClaim(0, 1)).0
    ensures Inv(a, q) && q == [FIRST_RECORD] && a.tail == 0 && a.head == FIRST
    ensures a.nodes[0].control.state.Pending? && a.nodes[1].control.state.Dead?
  {
    InitialInv();
    hide Inv;
    var e0, e1 := DoSet(1, Zeros(FIRST - HDR)), DoClaim(0, 1);
    StepKeepsInv(Initial(), [], e0);
    var a1 := Step(Initial(), e0).0;
    q := NextQueue(Initial(), [], e0);
    StepKeepsInv(a1, q, e1);
  }

  lemma ThirdStep(a: Arena, q: seq<Record>)
    requires Inv(a, q) && q == [FIRST_RECORD] && a.tail == 0 && a.head == FIRST
    requires a.nodes[0].control.state.Pending? && a.nodes[1].control.state.Dead?
    ensures var e := DoSet(0, Zeros(VICTIM_LENGTH));
            Step(a, e).1 == Answered(Ok(true)) && Filling(Step(a, e).0, NextQueue(a, q, e), 0)
  {
    hide Inv;
    StepKeepsInv(a, q, DoSet(0, Zeros(VICTIM_LENGTH)));
  }

  lemma OpeningSteps() returns (states: seq<Arena>, events: seq<Event>, a: Arena, q: seq<Record>)
    ensures Story(states, events, a) && Filling(a, q, 0)
  {
    hide Inv;
    var e0, e1, e2 := DoSet(1, Zeros(FIRST - HDR)), DoClaim(0, 1), DoSet(0, Zeros(VICTIM_LENGTH));
    var a1 := Step(Initial(), e0).0;
    var a2 := Step(a1, e1).0;
    var q2 := FirstTwoSteps(a2);
    ThirdStep(a2, q2);
    a, q := Step(a2, e2).0, NextQueue(a2, q2, e2);
    hide Step;
    states, events := [Initial(), a1, a2, a], [e0, e1, e2];
    assert FillAt(states, events, 2, 0);
  }

  lemma FillOneMore(a: Arena, q: seq<Record>, k: nat)
    requires Filling(a, q, k) && k < 4094
    ensures var e := DoSet(1, Zeros(VICTIM_LENGTH));
            Step(a, e).1 == Answered(Ok(false)) && Filling(Step(a, e).0, NextQueue(a, q, e), k + 1)
  {
    hide Inv;
    StepKeepsInv(a, q, DoSet(1, Zeros(VICTIM_LENGTH)));
  }

  // ----- overshooting -----

  /** The collector has gone j bytes astray into the record of slot 0. */
  ghost predicate Astray(a: Arena, j: nat) {
    && a.tail == FIRST + j && a.head == SIZE + UNIT - 1
    && a.nodes[0].control == Control(Ready, Hot, VICTIM_LENGTH, FIRST)
    && a.nodes[1].control.state.Dead?
    && forall i :: FIRST <= i < FIRST + BYTE_STEPS ==> a.mem[i] != 0xEF
  }

  lemma DropFirstRecord(a: Arena, q: seq<Record>)
    requires Filling(a, q, 4094)
    ensures Collect(a) == (a.(tail := FIRST), Skipped)
    ensures Inv(a.(tail := FIRST), q[1..])
  {
    hide Inv, Put, Slice, RecordBytes, HeaderAt;
    CollectorSeesTheQueue(a, q);
    CollectKeepsInv(a, q);
  }

  /** The victim's record, seen byte by byte. */
  lemma VictimBytes(mem: Memory, j: nat)
    requires Stored(mem, VICTIM_RECORD) && j < BYTE_STEPS
    ensures mem[FIRST + j] != 0xEF || j < 4
  {
    assert Slice(mem, FIRST, HDR + VICTIM_LENGTH)[j] == mem[FIRST + j];
    if j >= HDR {
      assert RecordBytes(0, Zeros(VICTIM_LENGTH))[j] == Zeros(VICTIM_LENGTH)[j - HDR];
    }
  }

  /** The record that overshoots, laid down from the border on: its last four bytes lie on the victim's identifier. */
  lemma IdentifierDestroyed(mem: Memory, i: nat)
    requires Stored(mem, VICTIM_RECORD) && FIRST <= i < FIRST + BYTE_STEPS
    ensures Put(mem, SIZE, RecordBytes(1, Zeros(UNIT - 1 - HDR)))[i] != 0xEF
  {
    var payload := Zeros(UNIT - 1 - HDR);
    VictimBytes(mem, i - FIRST);
    hide Stored;
    assert (i - SIZE) % SIZE == i;
    if i < FIRST + 4 {
      assert RecordBytes(1, payload)[i] == payload[i - HDR];
    }
  }

  lemma OvershootDestroysHeader(a: Arena, q: seq<Record>)
    requires Inv(a, q) && q != [] && q[0] == VICTIM_RECORD
    requires a.tail == FIRST && a.head == FIRST + 4095 * UNIT
    requires a.nodes[0].control == Control(Ready, Hot, VICTIM_LENGTH, FIRST) && a.nodes[1].control.state.Dead?
    ensures var e := DoSet(1, Zeros(UNIT - 1 - HDR));
            Step(a, e).1 == Answered(Ok(false)) && Astray(Step(a, e).0, 0)
  {
    assert Stored(a.mem, q[0]);
    hide Inv, Put, Stored, RecordBytes;
    var mem := Put(a.mem, SIZE, RecordBytes(1, Zeros(UNIT - 1 - HDR)));
    forall i | FIRST <= i < FIRST + BYTE_STEPS ensures mem[i] != 0xEF {
      IdentifierDestroyed(a.mem, i);
    }
  }

  lemma LowestByte(mem: Memory, i: nat)
    requires i + HDR <= SIZE
    ensures HeaderAt(mem, i).identifier % 256 == mem[i]
  {
    assert mem[i..i + 4][0] == mem[i];
  }

  /** With no identifier at its tail the collector advances by one byte. */
  lemma StepAstray(a: Arena, j: nat)
    requires Astray(a, j) && j < BYTE_STEPS
    ensures Step(a, DoCollect).1 == Collected(BadHeader) && Astray(Step(a, DoCollect).0, j + 1)
  {
    hide Put, Slice, RecordBytes, Value32;
    LowestByte(a.mem, FIRST + j);
  }

  /** The space gained is handed out again while slot 0 still points into it. */
  lemma ReuseClobbers(a: Arena)
    requires Astray(a, BYTE_STEPS)
    ensures var e := DoSet(1, seq(18, _ => 7));
            var a' := Step(a, e).0;
            Step(a, e).1 == Answered(Ok(false)) &&
            a'.nodes[0].control == Control(Ready, Hot, VICTIM_LENGTH, FIRST) &&
            Read(a'.mem, a'.nodes[0].control)[4] == 7
  {
    var payload: seq<Byte> := seq(18, _ => 7);
    var bytes := RecordBytes(1, payload);
    assert bytes[HDR] == payload[0];
    var i := FIRST + HDR + 4;
    assert (i - (SIZE + UNIT - 1)) % SIZE == HDR;
    assert Put(a.mem, SIZE + UNIT - 1, bytes)[i] == 7;
  }

  lemma OvershootingRun() returns (states: seq<Arena>, events: seq<Event>, a: Arena)
    ensures Story(states, events, a) && Astray(a, BYTE_STEPS)
  {
    hide Inv, Step, Run, LastFill;
    var q;
    states, events, a, q := OpeningSteps();
    var k: nat := 0;
    while k < 4094
      invariant k <= 4094 && Story(states, events, a) && Filling(a, q, k)
    {
      var e := DoSet(1, Zeros(VICTIM_LENGTH));
      FillOneMore(a, q, k);
      Continue(states, events, a, e);
      states, events, q, a, k := states + [Step(a, e).0], events + [e], NextQueue(a, q, e), Step(a, e).0, k + 1;
    }
    DropFirstRecord(a, q);
    CollectIsAStep(a);
    Continue(states, events, a, DoCollect);
    states, events, q, a := states + [Step(a, DoCollect).0], events + [DoCollect], q[1..], Step(a, DoCollect).0;
    var e := DoSet(1, Zeros(UNIT - 1 - HDR));
    OvershootDestroysHeader(a, q);
    Continue(states, events, a, e);
    states, events, a := states + [Step(a, e).0], events + [e], Step(a, e).0;
    k := 0;
    while k < BYTE_STEPS
      invariant k <= BYTE_STEPS && Story(states, events, a) && Astray(a, k)
    {
      StepAstray(a, k);
      Continue(states, events, a, DoCollect);
      states, events, a, k := states + [Step(a, DoCollect).0], events + [DoCollect], Step(a, DoCollect).0, k + 1;
    }
  }

  lemma CollectIsAStep(a: Arena)
    ensures Step(a, DoCollect) == (Collect(a).0, Collected(Collect(a).1))
  {
  }

  /**
    The law of the cache fails for the code as it is: this run ends with a hit on slot 0 that
    does not return what step 2, the slot's latest fill, stored.
   */
  lemma HitServesForeignBytes() returns (states: seq<Arena>, events: seq<Event>, k: nat)
    ensures Run(states, events) && k < |events| && events[k] == DoHit(0)
    ensures LastFill(states, events, k, 0, 2) && events[2].DoSet?
    ensures ReplyAt(states, events, k).Served? && ReplyAt(states, events, k).bytes != events[2].payload
  {
    var a;
    states, events, a := OvershootingRun();
    var e := DoSet(1, seq(18, _ => 7));
    ReuseClobbers(a);
    Continue(states, events, a, e);
    states, events, a := states + [Step(a, e).0], events + [e], Step(a, e).0;
    k := |events|;
    Continue(states, events, a, DoHit(0));
    states, events := states + [Step(a, DoHit(0)).0], events + [DoHit(0)];
    assert states[k] == a;
    assert Zeros(VICTIM_LENGTH)[4] == 0;
  }
}
