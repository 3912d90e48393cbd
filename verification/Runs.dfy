/** Whole runs of the system, from start-up on, over any sequence of atomic steps. */
module Runs {
  import opened Ring
  import opened ArenaModel
  import opened Invariant
  import opened Refinement

  /** `states` is what the arena goes through while `events` happen one after the other. */
  ghost predicate Run(states: seq<Arena>, events: seq<Event>) {
    && |states| == |events| + 1
    && states[0] == Initial()
    && forall k :: 0 <= k < |events| ==> InTable(events[k]) && states[k + 1] == Step(states[k], events[k]).0
  }

  function ReplyAt(states: seq<Arena>, events: seq<Event>, k: nat): Reply
    requires k < |events| && k < |states| && InTable(events[k])
  {
    Step(states[k], events[k]).1
  }

  /**
    No SetCache record overshoots its padding into the tail. The code does not test this;
    Overshoot.dfy shows what happens when it fails. Rescues need no such condition.
   */
  ghost predicate Fitting(states: seq<Arena>, events: seq<Event>)
    requires Run(states, events)
  {
    forall k :: 0 <= k < |events| ==> StepFits(states[k], events[k])
  }

  /** The records allocated so far and not yet reclaimed, in the order of their allocation. */
  ghost function Allocated(states: seq<Arena>, events: seq<Event>, k: nat): seq<Record>
    requires Run(states, events) && k <= |events|
  {
    if k == 0 then [] else NextQueue(states[k - 1], Allocated(states, events, k - 1), events[k - 1])
  }

  /** The collector never starts an iteration on a window longer than the buffer. */
  ghost predicate Settled(states: seq<Arena>, events: seq<Event>)
    requires Run(states, events)
  {
    forall k :: 0 <= k < |events| && events[k].DoCollect? ==> SpanFits(states[k])
  }

  lemma {:induction false} FittingRunKeepsInv(states: seq<Arena>, events: seq<Event>, k: nat)
    requires Run(states, events) && Fitting(states, events) && k <= |events|
    ensures Inv(states[k], Allocated(states, events, k))
  {
    hide Inv, StepFits;
    if k == 0 {
      InitialInv();
    } else {
      FittingRunKeepsInv(states, events, k - 1);
      StepKeepsInv(states[k - 1], Allocated(states, events, k - 1), events[k - 1]);
    }
  }

  /** Tiling, ownership and storage hold in every state of a run if and only if all its records fit. */
  lemma RunKeepsInv(states: seq<Arena>, events: seq<Event>)
    requires Run(states, events)
    ensures Fitting(states, events) <==>
            forall k :: 0 <= k <= |events| ==> Inv(states[k], Allocated(states, events, k))
  {
    hide Inv, StepFits;
    if Fitting(states, events) {
      forall k | 0 <= k <= |events| ensures Inv(states[k], Allocated(states, events, k)) {
        FittingRunKeepsInv(states, events, k);
      }
    }
    if forall k :: 0 <= k <= |events| ==> Inv(states[k], Allocated(states, events, k)) {
      forall k | 0 <= k < |events| ensures StepFits(states[k], events[k]) {
        StepKeepsInv(states[k], Allocated(states, events, k), events[k]);
        assert Inv(states[k + 1], Allocated(states, events, k + 1));
      }
    }
  }

  lemma {:induction false} RunIsSound(states: seq<Arena>, events: seq<Event>, k: nat)
    requires Run(states, events) && Settled(states, events) && k <= |events|
    ensures Sound(states[k], Allocated(states, events, k))
  {
    hide Inv, Sound, SpanFits;
    if k == 0 {
      InitialInv();
      SoundMeansInv(Initial(), []);
    } else {
      RunIsSound(states, events, k - 1);
      StepKeepsSound(states[k - 1], Allocated(states, events, k - 1), events[k - 1]);
    }
  }

  /** The bytes at the tail are the header of r. */
  ghost predicate HeaderAtTail(a: Arena, r: Record) {
    && a.tail == r.start && a.tail % SIZE + HDR <= SIZE
    && r.node < TOTAL_MAX_SLOTS && |r.payload| <= MAX_PAYLOAD_LENGTH
    && HeaderAt(a.mem, a.tail % SIZE) == PayloadHeader(VALID_IDENTIFIER, r.node, |r.payload|)
  }

  /** What the collector would do next: rest, leap over a pad, or stop at the record allocated longest ago. */
  ghost predicate FollowsTheRecords(a: Arena, q: seq<Record>) {
    match Collect(a).1
    case Idle => true
    case BadHeader => false
    case ForeignHeader => false
    case Leapt => q != [] && Collect(a).0.tail == q[0].start
    case _ => q != [] && HeaderAtTail(a, q[0])
  }

  lemma InvMeansFollowing(a: Arena, q: seq<Record>)
    requires Inv(a, q)
    ensures a.tail <= a.head <= a.tail + SIZE && FollowsTheRecords(a, q)
  {
    hide Inv;
    WindowIsOrdered(a, q);
    CollectorSeesTheQueue(a, q);
  }

  lemma UnfitStepOvershoots(a: Arena, e: Event)
    requires InTable(e) && !StepFits(a, e)
    ensures Step(a, e).0.tail + SIZE < Step(a, e).0.head
  {
  }

  /**
    The collector never loses its way: as long as all records fit, and no longer, the window lies
    in the buffer, and the collector reads back the headers in the order of allocation.
   */
  lemma CollectorFollowsTheRecords(states: seq<Arena>, events: seq<Event>)
    requires Run(states, events)
    ensures Fitting(states, events) <==>
            forall k :: 0 <= k <= |events| ==>
              states[k].tail <= states[k].head <= states[k].tail + SIZE &&
              FollowsTheRecords(states[k], Allocated(states, events, k))
  {
    hide Inv, FollowsTheRecords, StepFits, Step;
    if Fitting(states, events) {
      forall k | 0 <= k <= |events|
        ensures states[k].tail <= states[k].head <= states[k].tail + SIZE
        ensures FollowsTheRecords(states[k], Allocated(states, events, k))
      {
        FittingRunKeepsInv(states, events, k);
        InvMeansFollowing(states[k], Allocated(states, events, k));
      }
    } else {
      var k: nat :| k < |events| && !StepFits(states[k], events[k]);
      UnfitStepOvershoots(states[k], events[k]);
      assert states[k + 1] == Step(states[k], events[k]).0;
    }
  }

  /** Runs whose records fit meet the weaker condition, under which the theorems below hold. */
  lemma FittingIsSettled(states: seq<Arena>, events: seq<Event>)
    requires Run(states, events) && Fitting(states, events)
    ensures Settled(states, events)
  {
    hide Inv, StepFits;
    forall k | 0 <= k < |events| ensures SpanFits(states[k]) {
      FittingRunKeepsInv(states, events, k);
      WindowIsOrdered(states[k], Allocated(states, events, k));
    }
  }

  /** Refinement over whole runs: the arena moves exactly as the map does. */
  lemma RunRefines(states: seq<Arena>, events: seq<Event>)
    requires Run(states, events) && Settled(states, events)
    ensures Contents(states[0]) == map[]
    ensures forall k :: 0 <= k < |events| ==>
              Contents(states[k + 1]) ==
              NextContents(Contents(states[k]), events[k], ReplyAt(states, events, k))
    ensures forall k :: 0 <= k < |events| && events[k].DoHit? ==>
              var m, n := Contents(states[k]), events[k].node;
              ReplyAt(states, events, k) == if n in m then Served(m[n]) else Missed
  {
    hide Inv, Sound, SpanFits;
    ContentsAre(Initial(), map[]);
    forall k | 0 <= k < |events|
      ensures Contents(states[k + 1]) ==
              NextContents(Contents(states[k]), events[k], ReplyAt(states, events, k))
      ensures events[k].DoHit? ==>
                var m, n := Contents(states[k]), events[k].node;
                ReplyAt(states, events, k) == if n in m then Served(m[n]) else Missed
    {
      RunIsSound(states, events, k);
      StepRefines(states[k], Allocated(states, events, k), events[k]);
    }
  }

  // ----- which SetCache a slot's payload comes from -----

  predicate FillAt(states: seq<Arena>, events: seq<Event>, k: nat, n: nat)
    requires k < |events| && k < |states| && InTable(events[k])
  {
    events[k].DoSet? && events[k].target == n && ReplyAt(states, events, k) == Answered(Ok(true))
  }

  predicate EvictionAt(states: seq<Arena>, events: seq<Event>, k: nat, n: nat)
    requires k < |events| && k < |states| && InTable(events[k])
  {
    ReplyAt(states, events, k) == Collected(Evicted(n))
  }

  /** Step j is the latest successful SetCache for n before k, and n has not been evicted since. */
  ghost predicate LastFill(states: seq<Arena>, events: seq<Event>, k: nat, n: nat, j: nat)
    requires Run(states, events) && k <= |events|
  {
    && j < k && FillAt(states, events, j, n)
    && forall i :: j < i < k ==> !FillAt(states, events, i, n) && !EvictionAt(states, events, i, n)
  }

  function ChangeAt(states: seq<Arena>, events: seq<Event>, k: nat, n: nat): Change
    requires k < |events| && k < |states| && InTable(events[k])
  {
    if FillAt(states, events, k, n) then Filled(events[k].payload)
    else if EvictionAt(states, events, k, n) then Dropped
    else Kept
  }

  lemma OneStepOnOneSlot(states: seq<Arena>, events: seq<Event>, k: nat, n: nat)
    requires Run(states, events) && Settled(states, events) && k < |events|
    ensures Changes(Contents(states[k]), Contents(states[k + 1]), n, ChangeAt(states, events, k, n))
  {
    hide Inv, Sound, SpanFits;
    RunIsSound(states, events, k);
    StepRefines(states[k], Allocated(states, events, k), events[k]);
  }

  /**
    A slot is readable exactly when some SetCache filled it and the collector has not evicted it
    since, and what is read is the payload of the latest such SetCache, through any number of
    rescues, wrap-arounds, orphans, hits and expiries in between.
   */
  lemma ReadableIffFilled(states: seq<Arena>, events: seq<Event>, k: nat, n: nat)
    requires Run(states, events) && Settled(states, events) && k <= |events|
    ensures n in Contents(states[k]) <==> exists j: nat :: LastFill(states, events, k, n, j)
    ensures forall j: nat :: LastFill(states, events, k, n, j) ==>
              events[j].DoSet? && n in Contents(states[k]) && Contents(states[k])[n] == events[j].payload
  {
    hide EvictionAt, Contents, Settled, Step;
    var maps := seq(|states|, i requires 0 <= i < |states| => Contents(states[i]));
    var changes := seq(|events|, i requires 0 <= i < |events| && InTable(events[i]) => ChangeAt(states, events, i, n));
    ContentsAre(Initial(), map[]);
    forall i | 0 <= i < |changes| ensures Changes(maps[i], maps[i + 1], n, changes[i]) {
      OneStepOnOneSlot(states, events, i, n);
    }
    HeldIffLatest(maps, changes, n, k);
    forall j: nat ensures Latest(changes, k, j) <==> LastFill(states, events, k, n, j) {
      LastFillIsLatest(states, events, k, n, j, changes);
    }
  }

  lemma LastFillIsLatest(states: seq<Arena>, events: seq<Event>, k: nat, n: nat, j: nat, changes: seq<Change>)
    requires Run(states, events) && k <= |events| == |changes|
    requires forall i :: 0 <= i < |events| ==> changes[i] == ChangeAt(states, events, i, n)
    ensures Latest(changes, k, j) <==> LastFill(states, events, k, n, j)
  {
    hide FillAt, EvictionAt, Step;
    assert forall i :: 0 <= i < k ==>
                         (changes[i].Kept? <==> !FillAt(states, events, i, n) && !EvictionAt(states, events, i, n));
  }

  /** What a client sees: the bytes of a hit are the bytes last stored for that slot. */
  lemma HitServesLastFill(states: seq<Arena>, events: seq<Event>, k: nat)
    requires Run(states, events) && Settled(states, events) && k < |events| && events[k].DoHit?
    ensures match ReplyAt(states, events, k)
            case Served(bytes) =>
              exists j: nat :: LastFill(states, events, k, events[k].node, j) && events[j].payload == bytes
            case r => r == Missed && !exists j: nat :: LastFill(states, events, k, events[k].node, j)
  {
    RunRefines(states, events);
    ReadableIffFilled(states, events, k, events[k].node);
  }
}
