/**
  A run from start-up, all of whose records fit, that leads the collector into a rescue the ring
  has no room for. The source throws there on a thread that catches nothing, which ends the
  process: 4095 SetCache calls between two iterations of the collector are enough.
 */
module ExhaustedRun {
  import opened Node
  import opened Ring
  import opened ArenaModel
  import opened Invariant
  import opened Runs
  import opened Collector

  const LENGTH: nat := UNIT - HDR
  const UNITS: nat := SIZE / UNIT

  /** The first k units of the ring are taken; the oldest record belongs to slot 0, which is hot. */
  ghost predicate Loaded(a: Arena, q: seq<Record>, k: nat) {
    && Inv(a, q) && q != [] && q[0] == Record(0, 0, Zeros(LENGTH))
    && a.tail == 0 && a.head == k * UNIT
    && a.nodes[0].control == Control(Ready, Hot, LENGTH, 0)
  }

  ghost predicate FittingRun(states: seq<Arena>, events: seq<Event>, a: Arena) {
    Run(states, events) && Fitting(states, events) && states[|events|] == a
  }

  lemma Continue(states: seq<Arena>, events: seq<Event>, a: Arena, e: Event)
    requires FittingRun(states, events, a) && InTable(e) && StepFits(a, e)
    ensures FittingRun(states + [Step(a, e).0], events + [e], Step(a, e).0)
  {
    hide Step, StepFits;
    var states', events' := states + [Step(a, e).0], events + [e];
    forall k | 0 <= k < |events'|
      ensures InTable(events'[k]) && states'[k + 1] == Step(states'[k], events'[k]).0
      ensures StepFits(states'[k], events'[k])
    {
      assert k < |events| ==> states[k + 1] == Step(states[k], events[k]).0 && StepFits(states[k], events[k]);
    }
  }

  lemma FirstFill(a: Arena) returns (q: seq<Record>)
    requires a == Step(Initial(), DoClaim(0, 1)).0
    ensures var e := DoSet(0, Zeros(LENGTH)); StepFits(a, e) && Loaded(Step(a, e).0, q, 1)
  {
    InitialInv();
    hide Inv;
    StepKeepsInv(Initial(), [], DoClaim(0, 1));
    var e := DoSet(0, Zeros(LENGTH));
    assert StepFits(a, e);
    StepKeepsInv(a, [], e);
    q := NextQueue(a, [], e);
  }

  lemma FillOneMore(a: Arena, q: seq<Record>, k: nat)
    requires Loaded(a, q, k) && 0 < k < UNITS - 1
    ensures var e := DoSet(0, Zeros(LENGTH)); StepFits(a, e) && Loaded(Step(a, e).0, NextQueue(a, q, e), k + 1)
  {
    hide Inv;
    var e := DoSet(0, Zeros(LENGTH));
    assert StepFits(a, e);
    StepKeepsInv(a, q, e);
  }

  lemma FirstClaim() returns (states: seq<Arena>, events: seq<Event>, a: Arena)
    ensures FittingRun(states, events, a) && a == Step(Initial(), DoClaim(0, 1)).0
  {
    assert FittingRun([Initial()], [], Initial());
    Continue([Initial()], [], Initial(), DoClaim(0, 1));
    a := Step(Initial(), DoClaim(0, 1)).0;
    states, events := [Initial()] + [a], [] + [DoClaim(0, 1)];
  }

  /** All the while no record overshoots, and yet the next iteration of the collector is its last. */
  lemma RescueFindsRingExhausted() returns (states: seq<Arena>, events: seq<Event>)
    ensures Run(states, events) && Fitting(states, events)
    ensures Collect(states[|events|]).1.RescueFailed?
  {
    hide Inv, Step, StepFits, Run, Fitting;
    var a;
    states, events, a := FirstClaim();
    var e := DoSet(0, Zeros(LENGTH));
    var q := FirstFill(a);
    Continue(states, events, a, e);
    states, events, a := states + [Step(a, e).0], events + [e], Step(a, e).0;
    var k: nat := 1;
    while k < UNITS - 1
      invariant 0 < k <= UNITS - 1 && FittingRun(states, events, a) && Loaded(a, q, k)
    {
      FillOneMore(a, q, k);
      Continue(states, events, a, e);
      states, events, q, a, k := states + [Step(a, e).0], events + [e], NextQueue(a, q, e), Step(a, e).0, k + 1;
    }
    RescueFailsIff(a, q);
  }
}
