/**
  The head and tail of the ring under arbitrary interleavings. Any number of threads run the
  allocation loop, whose load of the head, load of the tail and compare-and-swap are separate
  steps, while the collector moves the tail forward.
 */
module Allocator {
  import opened Ring
  import opened ArenaModel
  import opened Invariant

  datatype Thread =
    | Resting
    | HeadLoaded(length: nat, curr: nat)
    | Tested(length: nat, curr: nat)  // passed the back-pressure test, about to swap

  /** A granted range of virtual offsets, header and payload, without padding. */
  datatype Grant = Grant(start: nat, end: nat)

  datatype State = State(head: nat, tail: nat, threads: seq<Thread>, grants: seq<Grant>)

  datatype Action =
    | LoadHead(t: nat, length: nat)
    | TestTail(t: nat)
    | Swap(t: nat)
    | Spurious(t: nat)
    | AdvanceTail(distance: nat)

  predicate At(s: State, t: nat, tested: bool) {
    t < |s.threads| && if tested then s.threads[t].Tested? else s.threads[t].HeadLoaded?
  }

  function SetThread(s: State, t: nat, th: Thread): State
    requires t < |s.threads|
  {
    s.(threads := s.threads[t := th])
  }

  function Apply(s: State, a: Action): State {
    match a
    case LoadHead(t, length) =>
      if t < |s.threads| && s.threads[t].Resting? && length <= MAX_PAYLOAD_LENGTH
      then SetThread(s, t, HeadLoaded(length, s.head)) else s
    case TestTail(t) =>
      if At(s, t, false) then
        var th := s.threads[t];
        if (th.curr + (HDR + th.length) - s.tail) % UINT64 >= SIZE then SetThread(s, t, Resting)  // exhausted
        else SetThread(s, t, Tested(th.length, th.curr))
      else s
    case Swap(t) =>
      if At(s, t, true) then
        var th := s.threads[t];
        var start := th.curr + Pad(th.curr);
        var next := start + HDR + th.length;
        if s.head == th.curr then
          State(next, s.tail, s.threads[t := Resting], s.grants + [Grant(start, next)])
        else SetThread(s, t, HeadLoaded(th.length, s.head))
      else s
    case Spurious(t) =>
      if At(s, t, true) then SetThread(s, t, HeadLoaded(s.threads[t].length, s.head)) else s
    case AdvanceTail(d) =>
      if s.tail + d <= s.head then s.(tail := s.tail + d) else s
  }

  function Schedule(s: State, actions: seq<Action>): State {
    if actions == [] then s else Apply(Schedule(s, actions[..|actions| - 1]), actions[|actions| - 1])
  }

  ghost predicate Init(s: State) {
    && s.head == s.tail == 0 && s.grants == []
    && forall t :: 0 <= t < |s.threads| ==> s.threads[t].Resting?
  }

  // ----- safety -----

  /** A stale test is harmless: it only counts if the head has not moved since it was loaded. */
  ghost predicate ThreadInv(th: Thread, head: nat, tail: nat) {
    match th
    case Resting => true
    case HeadLoaded(length, curr) => length <= MAX_PAYLOAD_LENGTH && curr <= head
    case Tested(length, curr) =>
      length <= MAX_PAYLOAD_LENGTH && curr <= head && (curr == head ==> head + HDR + length < tail + SIZE)
  }

  ghost predicate GrantsInv(grants: seq<Grant>, head: nat) {
    && (forall i :: 0 <= i < |grants| ==>
         grants[i].start + HDR <= grants[i].end <= head && grants[i].start % SIZE + HDR <= SIZE)
    && (forall i, j :: 0 <= i < j < |grants| ==> grants[i].end <= grants[j].start)
  }

  /** The span that the code as written cannot exceed: padding is not part of its test. */
  const MAX_SPAN: nat := SIZE + 10

  ghost predicate Safe(s: State) {
    && s.tail <= s.head <= s.tail + MAX_SPAN
    && (forall t :: 0 <= t < |s.threads| ==> ThreadInv(s.threads[t], s.head, s.tail))
    && GrantsInv(s.grants, s.head)
  }

  lemma SwapKeepsSafe(s: State, t: nat)
    requires Safe(s) && At(s, t, true) && s.head == s.threads[t].curr
    ensures Safe(Apply(s, Swap(t)))
  {
    var th, s' := s.threads[t], Apply(s, Swap(t));
    assert ThreadInv(th, s.head, s.tail);
    assert s'.head <= s.tail + MAX_SPAN;
    forall u | 0 <= u < |s'.threads| ensures ThreadInv(s'.threads[u], s'.head, s'.tail) {
      assert ThreadInv(s.threads[u], s.head, s.tail);
    }
  }

  lemma ApplyKeepsSafe(s: State, a: Action)
    requires Safe(s)
    ensures Safe(Apply(s, a))
  {
    match a
    case Swap(t) =>
      if At(s, t, true) && s.head == s.threads[t].curr {
        SwapKeepsSafe(s, t);
      }
    case TestTail(t) =>
      if At(s, t, false) {
        assert ThreadInv(s.threads[t], s.head, s.tail);
      }
    case Spurious(t) =>
      if At(s, t, true) {
        assert ThreadInv(s.threads[t], s.head, s.tail);
      }
    case AdvanceTail(d) =>
      forall u | 0 <= u < |s.threads| && s.tail + d <= s.head
        ensures ThreadInv(s.threads[u], s.head, s.tail + d)
      {
        assert ThreadInv(s.threads[u], s.head, s.tail);
      }
    case _ =>
  }

  /**
    For every schedule: granted ranges are disjoint and in the order of their swaps, no header
    straddles the border, and the span stays within SIZE + 10.
   */
  lemma {:induction false} SchedulesAreSafe(s: State, actions: seq<Action>)
    requires Init(s)
    ensures Safe(Schedule(s, actions))
  {
    if actions != [] {
      SchedulesAreSafe(s, actions[..|actions| - 1]);
      ApplyKeepsSafe(Schedule(s, actions[..|actions| - 1]), actions[|actions| - 1]);
    }
  }

  // ----- what the span means in the buffer -----

  /** Two offsets of the window share a byte of the buffer. */
  predicate Collide(u: nat, v: nat) {
    u != v && u % SIZE == v % SIZE
  }

  /** The window has no collision if and only if it is no longer than the buffer. */
  lemma NoCollisionIffSpanFits(head: nat, tail: nat)
    requires tail <= head
    ensures (forall u, v :: tail <= u < head && tail <= v < head ==> !Collide(u, v)) <==> head - tail <= SIZE
  {
    if head - tail <= SIZE {
      forall u: nat, v: nat | tail <= u < head && tail <= v < head ensures !Collide(u, v) {
        if u % SIZE == v % SIZE {
          assert u - v == (u / SIZE - v / SIZE) * SIZE;
        }
      }
    } else {
      assert Collide(tail, tail + SIZE);
    }
  }

  /** Records handed out and not yet reclaimed share no byte of the buffer while the span fits. */
  lemma SpanKeepsGrantsApart(s: State, i: nat, j: nat, u: nat, v: nat)
    requires Safe(s) && s.head - s.tail <= SIZE && i < j < |s.grants| && s.tail <= s.grants[i].start
    requires s.grants[i].start <= u < s.grants[i].end && s.grants[j].start <= v < s.grants[j].end
    ensures !Collide(u, v)
  {
    NoCollisionIffSpanFits(s.head, s.tail);
  }

  // ----- with padding counted -----

  predicate Succeeds(s: State, a: Action) {
    a.Swap? && At(s, a.t, true) && s.head == s.threads[a.t].curr
  }

  /** If the action is a successful swap, its record fits with its padding counted. */
  predicate SwapFits(s: State, a: Action) {
    Succeeds(s, a) ==> Fits(s.head, s.tail, s.threads[a.t].length)
  }

  /** Every successful swap of the schedule fits. */
  predicate SwapsFit(s: State, actions: seq<Action>) {
    actions == [] ||
    var n := |actions| - 1;
    SwapsFit(s, actions[..n]) && SwapFits(Schedule(s, actions[..n]), actions[n])
  }

  predicate SpanInBuffer(s: State) {
    s.head - s.tail <= SIZE
  }

  /** An action leaves a window no longer than the buffer if and only if it is no swap that does not fit. */
  lemma ActionKeepsSpanIffFits(s: State, a: Action)
    requires Safe(s) && SpanInBuffer(s)
    ensures SpanInBuffer(Apply(s, a)) <==> SwapFits(s, a)
  {
  }

  /** At no time during the schedule is the window longer than the buffer. */
  ghost predicate SpanStays(s: State, actions: seq<Action>) {
    forall k :: 0 <= k <= |actions| ==> SpanInBuffer(Schedule(s, actions[..k]))
  }

  lemma SpanStaysOneMore(s: State, actions: seq<Action>)
    requires actions != []
    ensures SpanStays(s, actions) <==>
            SpanStays(s, actions[..|actions| - 1]) && SpanInBuffer(Schedule(s, actions))
  {
    var before := actions[..|actions| - 1];
    assert forall k :: 0 <= k < |actions| ==> before[..k] == actions[..k];
    assert actions[..|actions|] == actions;
  }

  /**
    For every schedule of any number of threads: the span stays within the buffer all the time if
    and only if every successful swap fits with its padding counted.
   */
  lemma {:induction false} SpanStaysIffSwapsFit(s: State, actions: seq<Action>)
    requires Init(s)
    ensures SwapsFit(s, actions) <==> SpanStays(s, actions)
  {
    if actions == [] {
      assert actions[..0] == [];
    } else {
      hide Apply, Safe, SpanInBuffer, SwapFits, SpanStays;
      var n := |actions| - 1;
      SpanStaysIffSwapsFit(s, actions[..n]);
      SchedulesAreSafe(s, actions[..n]);
      SpanStaysOneMore(s, actions);
      if SpanStays(s, actions[..n]) {
        SpanStaysNow(s, actions[..n]);
      }
      if SpanInBuffer(Schedule(s, actions[..n])) {
        ActionKeepsSpanIffFits(Schedule(s, actions[..n]), actions[n]);
      }
    }
  }

  lemma SpanStaysNow(s: State, actions: seq<Action>)
    requires SpanStays(s, actions)
    ensures SpanInBuffer(Schedule(s, actions))
  {
    assert actions[..|actions|] == actions;
  }

  /** So in such a schedule no two records that are handed out and not reclaimed share a byte of the buffer. */
  lemma LiveGrantsShareNoByte(s: State, actions: seq<Action>, i: nat, j: nat, u: nat, v: nat)
    requires Init(s) && SwapsFit(s, actions)
    requires var r := Schedule(s, actions);
             i < j < |r.grants| && r.tail <= r.grants[i].start &&
             r.grants[i].start <= u < r.grants[i].end && r.grants[j].start <= v < r.grants[j].end
    ensures !Collide(u, v)
  {
    hide Schedule, Apply, Safe, SwapsFit, SpanStays;
    SchedulesAreSafe(s, actions);
    SpanStaysIffSwapsFit(s, actions);
    SpanStaysNow(s, actions);
    SpanKeepsGrantsApart(Schedule(s, actions), i, j, u, v);
  }

  // ----- the test with the padding in it -----

  /** If the action is a test that passes, it would pass with the padding counted too. */
  predicate TestFits(s: State, a: Action) {
    a.TestTail? && At(s, a.t, false) && Apply(s, a).threads[a.t].Tested? ==>
      var th := s.threads[a.t];
      th.curr + Pad(th.curr) + HDR + th.length - s.tail < SIZE
  }

  predicate TestsFit(s: State, actions: seq<Action>) {
    actions == [] ||
    var n := |actions| - 1;
    TestsFit(s, actions[..n]) && TestFits(Schedule(s, actions[..n]), actions[n])
  }

  /** A thread whose test counted the padding, or was made before the head moved on. */
  predicate WellTested(th: Thread, head: nat, tail: nat) {
    th.Tested? && th.curr == head ==> head + Pad(head) + HDR + th.length - tail < SIZE
  }

  ghost predicate AllWellTested(s: State) {
    s.head - s.tail < SIZE && forall t :: 0 <= t < |s.threads| ==> WellTested(s.threads[t], s.head, s.tail)
  }

  lemma ActionKeepsWellTested(s: State, a: Action)
    requires Safe(s) && AllWellTested(s) && TestFits(s, a)
    ensures AllWellTested(Apply(s, a)) && SwapFits(s, a)
  {
    hide Pad;
    var s' := Apply(s, a);
    assert Succeeds(s, a) ==> WellTested(s.threads[a.t], s.head, s.tail);
    forall t | 0 <= t < |s'.threads| ensures WellTested(s'.threads[t], s'.head, s'.tail) {
      assert WellTested(s.threads[t], s.head, s.tail) && ThreadInv(s.threads[t], s.head, s.tail);
    }
  }

  /**
    What the padding is for: in every schedule whose back-pressure tests count it, every swap fits
    and the span stays below the buffer, however stale the tests are by the time of their swaps.
   */
  lemma {:induction false} PaddedTestsKeepSpanBelowSize(s: State, actions: seq<Action>)
    requires Init(s) && TestsFit(s, actions)
    ensures SwapsFit(s, actions) && AllWellTested(Schedule(s, actions))
  {
    hide Apply, Safe, AllWellTested, TestFits, SwapFits;
    if actions == [] {
      StartIsWellTested(s);
    } else {
      var n := |actions| - 1;
      PaddedTestsKeepSpanBelowSize(s, actions[..n]);
      SchedulesAreSafe(s, actions[..n]);
      ActionKeepsWellTested(Schedule(s, actions[..n]), actions[n]);
    }
  }

  lemma StartIsWellTested(s: State)
    requires Init(s)
    ensures AllWellTested(s)
  {
  }

  // ----- the bound is reached -----

  lemma OneAction(s: State, actions: seq<Action>, a: Action)
    ensures Schedule(s, actions + [a]) == Apply(Schedule(s, actions), a)
  {
  }

  /** A thread that is left alone for three steps allocates as the atomic model does, or gives up. */
  lemma AloneIsAtomic(s: State, t: nat, length: nat)
    requires t < |s.threads| && s.threads[t].Resting? && length <= MAX_PAYLOAD_LENGTH
    ensures var s' := Apply(Apply(Apply(s, LoadHead(t, length)), TestTail(t)), Swap(t));
            match Allocate(s.head, s.tail, length)
            case Exhausted => s' == s
            case Granted(offset) =>
              s' == s.(head := offset + HDR + length, grants := s.grants + [Grant(offset, offset + HDR + length)])
  {
    var s1 := SetThread(s, t, HeadLoaded(length, s.head));
    assert Apply(s, LoadHead(t, length)) == s1;
    var s2 := SetThread(s1, t, Tested(length, s.head));
    assert s1.threads[t := Resting] == s.threads && s2.threads[t := Resting] == s.threads;
  }

  /**
    A swap that comes too late changes neither head nor grants: the thread goes on with the head it met
    and tests again. So does one that fails for no reason.
   */
  lemma LateSwapTriesAgain(s: State, t: nat)
    requires At(s, t, true)
    ensures var again := s.(threads := s.threads[t := HeadLoaded(s.threads[t].length, s.head)]);
            (s.head != s.threads[t].curr ==> Apply(s, Swap(t)) == again) && Apply(s, Spurious(t)) == again
  {
  }

  lemma AllocateAlone(s0: State, actions: seq<Action>, length: nat) returns (actions': seq<Action>)
    requires var s := Schedule(s0, actions);
             |s.threads| == 1 && s.threads[0].Resting? && length <= MAX_PAYLOAD_LENGTH &&
             s.tail <= s.head && s.head + HDR + length < s.tail + SIZE
    ensures var s, s' := Schedule(s0, actions), Schedule(s0, actions');
            |s'.threads| == 1 && s'.threads[0].Resting? && s'.tail == s.tail &&
            s'.head == s.head + Pad(s.head) + HDR + length
  {
    hide Apply, Schedule, Pad;
    OneAction(s0, actions, LoadHead(0, length));
    OneAction(s0, actions + [LoadHead(0, length)], TestTail(0));
    OneAction(s0, actions + [LoadHead(0, length)] + [TestTail(0)], Swap(0));
    AloneIsAtomic(Schedule(s0, actions), 0, length);
    actions' := actions + [LoadHead(0, length)] + [TestTail(0)] + [Swap(0)];
  }

  /** Even one thread alone can bring the span to its bound, ten bytes more than the buffer has. */
  lemma SpanBoundIsTight(s: State) returns (actions: seq<Action>)
    requires Init(s) && |s.threads| == 1
    ensures Schedule(s, actions).head - Schedule(s, actions).tail == MAX_SPAN
  {
    hide Apply;
    assert Schedule(s, []) == s;
    actions := AllocateAlone(s, [], UNIT - 11 - HDR);
    actions := DropAll(s, actions);
    hide Schedule;
    var k: nat := 0;
    while k < 4095
      invariant k <= 4095
      invariant var r := Schedule(s, actions);
                |r.threads| == 1 && r.threads[0].Resting? && r.tail == UNIT - 11 && r.head == UNIT - 11 + k * UNIT
    {
      actions := AllocateAlone(s, actions, UNIT - HDR);
      k := k + 1;
    }
    actions := AllocateAlone(s, actions, UNIT - 1 - HDR);
  }

  /** The collector catches up with the head. */
  lemma DropAll(s0: State, actions: seq<Action>) returns (actions': seq<Action>)
    requires Schedule(s0, actions).tail <= Schedule(s0, actions).head
    ensures var s := Schedule(s0, actions); Schedule(s0, actions') == s.(tail := s.head)
  {
    var d := Schedule(s0, actions).head - Schedule(s0, actions).tail;
    OneAction(s0, actions, AdvanceTail(d));
    actions' := actions + [AdvanceTail(d)];
  }
}
