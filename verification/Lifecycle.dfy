/**
  The life of a slot under arbitrary interleavings. Any number of threads load a control word,
  compute a new one and compare-and-swap; nothing else is atomic. A log records the swaps that
  succeeded.
 */
module Lifecycle {
  import opened Node
  import opened Ring
  import opened ArenaModel

  /** What a thread wants of a word. Lengths and offsets are whatever the thread came by. */
  datatype Op =
    | Claim
    | Expire
    | Fill(length: nat, offset: nat)
    | Hit
    | Evict
    | Rescue(target: nat)

  /** The word that a thread tries to store after loading w, unless w makes it give up. */
  function Desired(op: Op, w: Control): Option<Control> {
    match op
    case Claim => if w.state.Dead? then Some(Packed(Pending, Hot, 0, 0)) else None
    case Expire => if w.state.Pending? then Some(w.(state := Dead)) else None
    case Fill(length, offset) => if w.state.Pending? then Some(Packed(Ready, Hot, length, offset)) else None
    case Hit => if Readable(w) then Some(w.(refBit := Hot)) else None
    case Evict => if !w.state.Dead? && w.refBit.Cold? then Some(w.(state := Dead)) else None
    case Rescue(target) =>
      if !w.state.Dead? && w.refBit.Hot? then Some(Packed(w.state, Cold, w.length, target)) else None
  }

  datatype Thread = Resting | Loaded(op: Op, node: nat, expected: Control)

  datatype Entry = Entry(node: nat, op: Op, before: Control, after: Control)

  datatype State = State(words: seq<Control>, threads: seq<Thread>, log: seq<Entry>)

  const DEAD_WORD := Control(Dead, Cold, 0, 0)

  ghost predicate Init(s: State) {
    && (forall n :: 0 <= n < |s.words| ==> s.words[n] == DEAD_WORD)
    && (forall t :: 0 <= t < |s.threads| ==> s.threads[t].Resting?)
    && s.log == []
  }

  datatype Action =
    | Load(t: nat, op: Op, node: nat)
    | Swap(t: nat)
    | Spurious(t: nat)  // compare_exchange_weak may fail for no reason

  function Reload(s: State, t: nat): State
    requires t < |s.threads| && s.threads[t].Loaded? && s.threads[t].node < |s.words|
  {
    var l := s.threads[t];
    // Only SetCache's loop tries again with the word it found.
    s.(threads := s.threads[t := if l.op.Fill? then l.(expected := s.words[l.node]) else Resting])
  }

  function Apply(s: State, a: Action): State {
    match a
    case Load(t, op, n) =>
      if t < |s.threads| && n < |s.words| && s.threads[t].Resting?
      then s.(threads := s.threads[t := Loaded(op, n, s.words[n])]) else s
    case Swap(t) =>
      if t < |s.threads| && s.threads[t].Loaded? && s.threads[t].node < |s.words| then
        var l := s.threads[t];
        match Desired(l.op, l.expected) {
          case None => s.(threads := s.threads[t := Resting])
          case Some(w) =>
            if s.words[l.node] == l.expected then
              State(s.words[l.node := w], s.threads[t := Resting], s.log + [Entry(l.node, l.op, l.expected, w)])
            else Reload(s, t)
        }
      else s
    case Spurious(t) =>
      if t < |s.threads| && s.threads[t].Loaded? && s.threads[t].node < |s.words| && s.threads[t].op.Fill?
      then Reload(s, t) else s
  }

  /** The state after a schedule, from a state in which nothing has happened yet. */
  function Schedule(s: State, actions: seq<Action>): State {
    if actions == [] then s else Apply(Schedule(s, actions[..|actions| - 1]), actions[|actions| - 1])
  }

  // ----- every schedule is explained by its log -----

  /** The word of slot n after the first k swaps of a log. */
  function WordAfter(log: seq<Entry>, k: nat, n: nat): Control
    requires k <= |log|
  {
    if k == 0 then DEAD_WORD
    else if log[k - 1].node == n then log[k - 1].after
    else WordAfter(log, k - 1, n)
  }

  /** Swap k found the word that the swaps before it had left, and stored what its op wants. */
  ghost predicate InOrder(log: seq<Entry>, k: nat)
    requires k < |log|
  {
    log[k].before == WordAfter(log, k, log[k].node) && Desired(log[k].op, log[k].before) == Some(log[k].after)
  }

  ghost predicate Sequential(log: seq<Entry>) {
    forall k :: 0 <= k < |log| ==> InOrder(log, k)
  }

  ghost predicate Explained(s: State) {
    Sequential(s.log) && forall n :: 0 <= n < |s.words| ==> s.words[n] == WordAfter(s.log, |s.log|, n)
  }

  lemma {:induction false} EarlierWordsStay(log: seq<Entry>, e: Entry, k: nat, n: nat)
    requires k <= |log|
    ensures WordAfter(log + [e], k, n) == WordAfter(log, k, n)
  {
    if k > 0 {
      EarlierWordsStay(log, e, k - 1, n);
    }
  }

  lemma LogExtended(log: seq<Entry>, e: Entry)
    requires Sequential(log)
    requires e.before == WordAfter(log, |log|, e.node) && Desired(e.op, e.before) == Some(e.after)
    ensures Sequential(log + [e])
    ensures forall n: nat :: WordAfter(log + [e], |log| + 1, n) ==
                             if n == e.node then e.after else WordAfter(log, |log|, n)
  {
    forall k | 0 <= k < |log + [e]| ensures InOrder(log + [e], k) {
      assert k < |log| ==> InOrder(log, k);
      EarlierWordsStay(log, e, k, (log + [e])[k].node);
    }
    forall n: nat
      ensures WordAfter(log + [e], |log| + 1, n) == if n == e.node then e.after else WordAfter(log, |log|, n)
    {
      EarlierWordsStay(log, e, |log|, n);
    }
  }

  lemma SwapIsExplained(s: State, a: Action)
    requires Explained(s)
    ensures Explained(Apply(s, a))
  {
    if a.Swap? && a.t < |s.threads| && s.threads[a.t].Loaded? && s.threads[a.t].node < |s.words| {
      var l := s.threads[a.t];
      if s.words[l.node] == l.expected && Desired(l.op, l.expected).Some? {
        LogExtended(s.log, Entry(l.node, l.op, l.expected, Desired(l.op, l.expected).value));
      }
    }
  }

  /** Lock-free updates are linearisable: the log alone determines every word. */
  lemma {:induction false} EveryScheduleIsExplained(s: State, actions: seq<Action>)
    requires Init(s)
    ensures Explained(Schedule(s, actions))
  {
    if actions != [] {
      EveryScheduleIsExplained(s, actions[..|actions| - 1]);
      SwapIsExplained(Schedule(s, actions[..|actions| - 1]), actions[|actions| - 1]);
    }
  }

  // ----- counting -----

  /** How often slot n is claimed in the first k swaps. */
  function Births(log: seq<Entry>, k: nat, n: nat): nat
    requires k <= |log|
  {
    if k == 0 then 0
    else Births(log, k - 1, n) + if log[k - 1].node == n && log[k - 1].op.Claim? then 1 else 0
  }

  function Deaths(log: seq<Entry>, k: nat, n: nat): nat
    requires k <= |log|
  {
    if k == 0 then 0
    else
      var e := log[k - 1];
      Deaths(log, k - 1, n) + if e.node == n && (e.op.Expire? || e.op.Evict?) then 1 else 0
  }

  /** Claims and deaths of a slot alternate: at any time it has one more claim than deaths iff it is not dead. */
  lemma {:induction false} ClaimsMinusDeaths(log: seq<Entry>, k: nat, n: nat)
    requires Sequential(log) && k <= |log|
    ensures Births(log, k, n) == Deaths(log, k, n) + if WordAfter(log, k, n).state.Dead? then 0 else 1
    ensures !WordAfter(log, k, n).state.Migrating?
  {
    if k > 0 {
      ClaimsMinusDeaths(log, k - 1, n);
      assert InOrder(log, k - 1);
    }
  }

  /** The counting law for every schedule of any number of threads. */
  lemma SchedulesObeyTheCount(s: State, actions: seq<Action>, n: nat)
    requires Init(s) && n < |s.words|
    ensures var r := Schedule(s, actions);
            Sequential(r.log) && |r.words| == |s.words| &&
            Births(r.log, |r.log|, n) == Deaths(r.log, |r.log|, n) + if r.words[n].state.Dead? then 0 else 1
  {
    EveryScheduleIsExplained(s, actions);
    ScheduleKeepsSize(s, actions);
    ClaimsMinusDeaths(Schedule(s, actions).log, |Schedule(s, actions).log|, n);
  }

  lemma {:induction false} ScheduleKeepsSize(s: State, actions: seq<Action>)
    ensures |Schedule(s, actions).words| == |s.words|
  {
    if actions != [] {
      ScheduleKeepsSize(s, actions[..|actions| - 1]);
    }
  }

  // ----- one fill per claim -----

  /** No swap strictly between i and k concerns slot n. */
  ghost predicate Quiet(log: seq<Entry>, i: int, k: int, n: nat)
    requires -1 <= i && k <= |log|
  {
    forall j :: i < j < k ==> log[j].node != n
  }

  ghost predicate NoClaim(log: seq<Entry>, i: int, k: int, n: nat)
    requires -1 <= i && k <= |log|
  {
    forall j :: i < j < k ==> !(log[j].node == n && log[j].op.Claim?)
  }

  /** Once filled, a slot is not pending again before it is claimed again. */
  lemma {:induction false} NotPendingUntilClaimed(log: seq<Entry>, i: nat, k: nat, n: nat)
    requires Sequential(log) && i < k <= |log|
    requires log[i].node == n && log[i].op.Fill? && NoClaim(log, i, k, n)
    ensures !WordAfter(log, k, n).state.Pending?
  {
    if i < k - 1 {
      NotPendingUntilClaimed(log, i, k - 1, n);
    }
    assert InOrder(log, k - 1);
  }

  /** At most one SetCache reports success for each claim of a slot. */
  lemma OneFillPerClaim(log: seq<Entry>, i: nat, k: nat, n: nat)
    requires Sequential(log) && i < k < |log|
    requires log[i].node == n && log[i].op.Fill? && log[k].node == n && log[k].op.Fill?
    ensures exists j :: i < j < k && log[j].node == n && log[j].op.Claim?
  {
    assert InOrder(log, k);
    if NoClaim(log, i, k, n) {
      NotPendingUntilClaimed(log, i, k, n);
    }
  }

  // ----- second chance -----

  /** A readable cold word was left by a rescue, and nothing has touched it since. */
  lemma {:induction false} ColdMeansRescued(log: seq<Entry>, k: nat, n: nat) returns (j: nat)
    requires Sequential(log) && k <= |log|
    requires WordAfter(log, k, n).state.Ready? && WordAfter(log, k, n).refBit.Cold?
    ensures j < k && log[j].node == n && log[j].op.Rescue? && log[j].before.state.Ready? && log[j].before.refBit.Hot?
    ensures Quiet(log, j, k, n)
  {
    assert InOrder(log, k - 1);
    if log[k - 1].node == n {
      j := k - 1;
    } else {
      j := ColdMeansRescued(log, k - 1, n);
    }
  }

  /** Nothing but hits and rescues happens to slot n strictly between i and k. */
  ghost predicate OnlyUsed(log: seq<Entry>, i: int, k: int, n: nat)
    requires -1 <= i && k <= |log|
  {
    forall j :: i < j < k && log[j].node == n ==> log[j].op.Hit? || log[j].op.Rescue?
  }

  /** A readable word goes back to a fill after which the slot has only been hit and rescued. */
  lemma {:induction false} ReadyMeansFilled(log: seq<Entry>, k: nat, n: nat) returns (i: nat)
    requires Sequential(log) && k <= |log| && WordAfter(log, k, n).state.Ready?
    ensures i < k && log[i].node == n && log[i].op.Fill? && OnlyUsed(log, i, k, n)
  {
    assert InOrder(log, k - 1);
    if log[k - 1].node == n && log[k - 1].op.Fill? {
      i := k - 1;
    } else {
      i := ReadyMeansFilled(log, k - 1, n);
    }
  }

  /**
    The second chance. Whenever a filled slot is evicted, it has been rescued after that very
    fill, and it has not been hit, nor anything else, since the latest rescue.
   */
  lemma SecondChance(log: seq<Entry>, k: nat) returns (i: nat, j: nat)
    requires Sequential(log) && k < |log| && log[k].op.Evict? && log[k].before.state.Ready?
    ensures i < j < k && log[i].node == log[j].node == log[k].node
    ensures log[i].op.Fill? && log[j].op.Rescue? && log[j].before.refBit.Hot?
    ensures OnlyUsed(log, i, k, log[k].node) && Quiet(log, j, k, log[k].node)
  {
    assert InOrder(log, k);
    j := ColdMeansRescued(log, k, log[k].node);
    i := ReadyMeansFilled(log, k, log[k].node);
  }

  /** Nobody but the collector ends a readable slot's life: expiry hits pending slots only. */
  lemma ReadyDiesByEviction(log: seq<Entry>, k: nat)
    requires Sequential(log) && k < |log| && log[k].before.state.Ready? && log[k].after.state.Dead?
    ensures log[k].op.Evict?
  {
    assert InOrder(log, k);
  }

  // ----- operations, alone and contested -----

  /** A thread left alone performs its operation, or leaves everything as it is. */
  lemma LoneOperation(s: State, t: nat, op: Op, n: nat)
    requires t < |s.threads| && s.threads[t].Resting? && n < |s.words|
    ensures var r := Apply(Apply(s, Load(t, op, n)), Swap(t));
            match Desired(op, s.words[n])
            case None => r == s
            case Some(w) => r == s.(words := s.words[n := w], log := s.log + [Entry(n, op, s.words[n], w)])
  {
    hide Desired;
    assert s.threads[t := Loaded(op, n, s.words[n])][t := Resting] == s.threads;
  }

  // ----- losing a claim -----

  /** Some thread has claimed slot n by one of the swaps from i on and before k. */
  ghost predicate ClaimedBetween(log: seq<Entry>, i: nat, k: nat, n: nat)
    requires k <= |log|
  {
    exists j :: i <= j < k && log[j].node == n && log[j].op.Claim?
  }

  ghost predicate DeathBetween(log: seq<Entry>, i: nat, k: nat, n: nat)
    requires k <= |log|
  {
    exists j :: i <= j < k && log[j].node == n && (log[j].op.Expire? || log[j].op.Evict?)
  }

  /** A dead word changes by a claim and by nothing else. */
  lemma {:induction false} DeadUntilClaimed(log: seq<Entry>, i: nat, k: nat, n: nat)
    requires Sequential(log) && i <= k <= |log|
    requires WordAfter(log, i, n).state.Dead? && !ClaimedBetween(log, i, k, n)
    ensures WordAfter(log, k, n) == WordAfter(log, i, n)
  {
    if i < k {
      DeadUntilClaimed(log, i, k - 1, n);
      assert InOrder(log, k - 1);
    }
  }

  lemma {:induction false} AliveUntilDeath(log: seq<Entry>, i: nat, k: nat, n: nat)
    requires Sequential(log) && i <= k <= |log|
    requires !WordAfter(log, i, n).state.Dead? && !DeathBetween(log, i, k, n)
    ensures !WordAfter(log, k, n).state.Dead?
  {
    if i < k {
      AliveUntilDeath(log, i, k - 1, n);
      assert InOrder(log, k - 1);
    }
  }

  lemma AliveAfterClaim(log: seq<Entry>, i: nat, k: nat, n: nat)
    requires Sequential(log) && i <= k <= |log|
    requires ClaimedBetween(log, i, k, n) && !DeathBetween(log, i, k, n)
    ensures !WordAfter(log, k, n).state.Dead?
  {
    var j :| i <= j < k && log[j].node == n && log[j].op.Claim?;
    assert InOrder(log, j);
    AliveUntilDeath(log, j + 1, k, n);
  }

  /**
    A thread saw slot n dead after `seen` swaps, loads its word after `loaded` and tries to swap
    after `swapped`. If its claim fails, another thread has claimed the slot in between; and if one
    has, and that claim is still alive, this thread's fails.
   */
  lemma ClaimFailsByRival(log: seq<Entry>, seen: nat, loaded: nat, swapped: nat, n: nat)
    requires Sequential(log) && seen <= loaded <= swapped <= |log| && WordAfter(log, seen, n).state.Dead?
    ensures var failed := !WordAfter(log, loaded, n).state.Dead? ||
                          WordAfter(log, swapped, n) != WordAfter(log, loaded, n);
            (failed ==> ClaimedBetween(log, seen, swapped, n)) &&
            (ClaimedBetween(log, seen, swapped, n) && !DeathBetween(log, seen, swapped, n) ==> failed)
  {
    if !ClaimedBetween(log, seen, swapped, n) {
      DeadUntilClaimed(log, seen, loaded, n);
      DeadUntilClaimed(log, seen, swapped, n);
    } else if !DeathBetween(log, seen, swapped, n) {
      AliveAfterClaim(log, seen, swapped, n);
    }
  }

  /** An action of some other thread. */
  predicate Elsewhere(a: Action, t: nat) {
    a.t != t
  }

  lemma OtherLeavesThreadAlone(s: State, a: Action, t: nat)
    requires Elsewhere(a, t) && t < |s.threads|
    ensures var r := Apply(s, a);
            |r.threads| == |s.threads| && r.threads[t] == s.threads[t] && s.log <= r.log
  {
    hide Desired;
  }

  lemma {:induction false} OthersLeaveThreadAlone(s: State, before: seq<Action>, after: seq<Action>, t: nat)
    requires forall k :: 0 <= k < |after| ==> Elsewhere(after[k], t)
    requires t < |Schedule(s, before).threads|
    ensures var r, r' := Schedule(s, before), Schedule(s, before + after);
            |r'.threads| == |r.threads| && r'.threads[t] == r.threads[t] && r.log <= r'.log
  {
    if after == [] {
      assert before + after == before;
    } else {
      var k := |after| - 1;
      OthersLeaveThreadAlone(s, before, after[..k], t);
      assert (before + after)[..|before + after| - 1] == before + after[..k];
      hide Apply;
      OtherLeavesThreadAlone(Schedule(s, before + after[..k]), after[k], t);
    }
  }

  /**
    The same for threads: one loads a dead word, others act, and it swaps. The swap fails exactly if
    the word is not what it was, and then another thread has claimed the slot since the load.
   */
  lemma LostClaimHadRival(s: State, before: seq<Action>, after: seq<Action>, t: nat, n: nat)
    requires Init(s) && forall k :: 0 <= k < |after| ==> Elsewhere(after[k], t)
    requires var r := Schedule(s, before);
             t < |r.threads| && r.threads[t].Resting? && n < |r.words| && r.words[n].state.Dead?
    ensures var r, r' := Schedule(s, before), Schedule(s, before + [Load(t, Claim, n)] + after);
            n < |r'.words| && (Apply(r', Swap(t)).log == r'.log <==> r'.words[n] != r.words[n]) &&
            (r'.words[n] != r.words[n] ==> ClaimedBetween(r'.log, |r.log|, |r'.log|, n))
  {
    var r, loading := Schedule(s, before), before + [Load(t, Claim, n)];
    assert loading[..|loading| - 1] == before;
    OthersLeaveThreadAlone(s, loading, after, t);
    EveryScheduleIsExplained(s, before);
    EveryScheduleIsExplained(s, loading + after);
    ScheduleKeepsSize(s, before);
    ScheduleKeepsSize(s, loading + after);
    var r' := Schedule(s, loading + after);
    PrefixDeterminesWord(r.log, r'.log, |r.log|, n);
    ClaimFailsByRival(r'.log, |r.log|, |r.log|, |r'.log|, n);
  }

  /**
    Any operation in any schedule: a thread loads, others act, and it swaps. The swap takes exactly if
    the word is still the one loaded; if not, a SetCache goes on with the word it met, and everybody
    else gives up.
   */
  lemma ContestedOperation(s: State, before: seq<Action>, after: seq<Action>, t: nat, op: Op, n: nat)
    requires forall k :: 0 <= k < |after| ==> Elsewhere(after[k], t)
    requires var r := Schedule(s, before); t < |r.threads| && r.threads[t].Resting? && n < |r.words|
    ensures var e, r := Schedule(s, before).words[n], Schedule(s, before + [Load(t, op, n)] + after);
            var r' := Apply(r, Swap(t));
            n < |r.words| && t < |r'.threads| &&
            match Desired(op, e)
            case None => r'.words == r.words && r'.log == r.log && r'.threads[t].Resting?
            case Some(w) =>
              if r.words[n] == e then
                r'.words == r.words[n := w] && r'.log == r.log + [Entry(n, op, e, w)] && r'.threads[t].Resting?
              else
                r'.words == r.words && r'.log == r.log &&
                r'.threads[t] == if op.Fill? then Loaded(op, n, r.words[n]) else Resting
  {
    var loading := before + [Load(t, op, n)];
    assert loading[..|loading| - 1] == before;
    OthersLeaveThreadAlone(s, loading, after, t);
    ScheduleKeepsSize(s, before);
    ScheduleKeepsSize(s, loading + after);
    hide Desired, Schedule;
  }

  lemma {:induction false} PrefixDeterminesWord(log: seq<Entry>, log': seq<Entry>, k: nat, n: nat)
    requires log <= log' && k <= |log|
    ensures WordAfter(log, k, n) == WordAfter(log', k, n)
  {
    if k > 0 {
      PrefixDeterminesWord(log, log', k - 1, n);
    }
  }

  // ----- the atomic steps of the arena are swaps of this kind -----

  /** The operation that a step of the whole system performs on slot n. */
  function OpAt(a: Arena, e: Event, n: nat): Option<Op>
    requires InTable(e) && n < TOTAL_MAX_SLOTS
  {
    var w := a.nodes[n].control;
    match (e, Step(a, e).1)
    case (DoClaim(m, _), _) => if m == n && w.state.Dead? then Some(Claim) else None
    case (DoExpire(m), _) => if m == n && w.state.Pending? then Some(Expire) else None
    case (DoHit(m), _) => if m == n && Readable(w) then Some(Hit) else None
    case (DoSet(m, payload), Answered(Ok(true))) =>
      if m == n then Some(Fill(|payload|, a.head + Pad(a.head))) else None
    case (DoCollect, Collected(Evicted(m))) => if m == n then Some(Evict) else None
    case (DoCollect, Collected(Rescued(m, target))) => if m == n then Some(Rescue(target)) else None
    case _ => None
  }

  /** Each step of the arena swaps the words it touches by an operation of the life cycle, and no others. */
  lemma StepsAreSwaps(a: Arena, e: Event, n: nat)
    requires InTable(e) && n < TOTAL_MAX_SLOTS
    ensures var w, w' := a.nodes[n].control, Step(a, e).0.nodes[n].control;
            match OpAt(a, e, n)
            case None => w' == w
            case Some(op) => Desired(op, w) == Some(w')
  {
    hide Put, Slice, RecordBytes, HeaderAt;
  }
}
