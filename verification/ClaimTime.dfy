/**
  The claim time of one slot under arbitrary interleavings. A thread loads the slot's word, tries to
  swap it, and stores the matching `created_at` in a step of its own, which may come late. The
  collector stores its zero whether or not its swap has taken.
 */
module ClaimTime {
  import opened Node
  import opened Ring
  import opened ArenaModel
  import opened CosineSimilarity
  import opened Scan
  import opened Sessions
  import L = Lifecycle

  /** Readings of a clock that is past zero. */
  type Time = x: nat | x > 0 witness 1

  datatype Phase =
    | Resting
    | Loaded(op: L.Op, expected: Control, now: Time)
    | Overdue(expected: Control)  // an expiry that has found the claim too old
    | Owing(time: nat)            // has yet to store this claim time

  datatype Slot = Slot(node: MetaNode, threads: seq<Phase>)

  datatype Action =
    | Load(t: nat, op: L.Op, now: Time)
    | LoadTime(t: nat)
    | Swap(t: nat)
    | StoreTime(t: nat)

  /** What a thread does once it has tried its swap: store the clock, store zero, or nothing. */
  function AfterSwap(op: L.Op, now: Time, taken: bool): Phase {
    match op
    case Claim => if taken then Owing(now) else Resting
    case Expire => if taken then Owing(0) else Resting
    case Evict => Owing(0)
    case _ => Resting
  }

  function TrySwap(s: Slot, t: nat, op: L.Op, expected: Control, now: Time): Slot
    requires t < |s.threads|
  {
    match L.Desired(op, expected)
    case None => s.(threads := s.threads[t := Resting])
    case Some(w) =>
      var taken := s.node.control == expected;
      Slot(if taken then s.node.(control := w) else s.node, s.threads[t := AfterSwap(op, now, taken)])
  }

  function Apply(s: Slot, a: Action): Slot {
    if a.t >= |s.threads| then s
    else
      match (a, s.threads[a.t])
      case (Load(t, op, now), Resting) => s.(threads := s.threads[t := Loaded(op, s.node.control, now)])
      case (LoadTime(t), Loaded(Expire, w, now)) =>
        var birth := s.node.createdAt;
        var overdue := w.state.Pending? && birth != 0 && Age(now, birth) > PENDING_LIFESPAN;
        s.(threads := s.threads[t := if overdue then Overdue(w) else Resting])
      case (Swap(t), Loaded(op, w, now)) => if op.Expire? then s else TrySwap(s, t, op, w, now)
      case (Swap(t), Overdue(w)) => TrySwap(s, t, L.Expire, w, 1)
      case (StoreTime(t), Owing(time)) => Slot(s.node.(createdAt := time), s.threads[t := Resting])
      case _ => s
  }

  function Schedule(s: Slot, actions: seq<Action>): Slot {
    if actions == [] then s else Apply(Schedule(s, actions[..|actions| - 1]), actions[|actions| - 1])
  }

  predicate NoDebts(s: Slot) {
    forall t :: 0 <= t < |s.threads| ==> !s.threads[t].Owing?
  }

  /** Scan.Dated, for one slot. */
  predicate DatedSlot(m: MetaNode) {
    m.control.state.Dead? <==> m.createdAt == 0
  }

  ghost predicate Init(s: Slot) {
    s.node == MetaNode(0, L.DEAD_WORD) && forall t :: 0 <= t < |s.threads| ==> s.threads[t].Resting?
  }

  // ----- when the claim times come out right -----

  predicate AllStores(stores: seq<Action>) {
    forall k :: 0 <= k < |stores| ==> stores[k].StoreTime?
  }

  /** In whatever order the claim times still owed are stored, the slot then is dead iff its time is zero. */
  ghost predicate EndsDated(s: Slot) {
    forall stores: seq<Action> :: AllStores(stores) && NoDebts(Schedule(s, stores)) ==>
                                    DatedSlot(Schedule(s, stores).node)
  }

  /** A swap that a thread is about to try. */
  datatype Attempt = Attempt(op: L.Op, expected: Control)

  function AttemptOf(s: Slot, a: Action): Option<Attempt> {
    if !a.Swap? || a.t >= |s.threads| then None
    else
      match s.threads[a.t]
      case Loaded(op, w, _) => if op.Expire? || L.Desired(op, w).None? then None else Some(Attempt(op, w))
      case Overdue(w) => if L.Desired(L.Expire, w).None? then None else Some(Attempt(L.Expire, w))
      case _ => None
  }

  /**
    The action is no claim or death that takes while some claim time is still owed, and no eviction
    that fails on a slot in use.
   */
  predicate Timely(s: Slot, a: Action) {
    match AttemptOf(s, a)
    case None => true
    case Some(Attempt(op, w)) =>
      if s.node.control == w then (op.Claim? || op.Expire? || op.Evict? ==> NoDebts(s))
      else (op.Evict? ==> s.node.control.state.Dead?)
  }

  predicate InTime(s: Slot, actions: seq<Action>) {
    actions == [] ||
    var n := |actions| - 1;
    InTime(s, actions[..n]) && Timely(Schedule(s, actions[..n]), actions[n])
  }

  /** Every claim time owed suits the word. */
  ghost predicate Calm(s: Slot) {
    && (NoDebts(s) ==> DatedSlot(s.node))
    && forall t :: 0 <= t < |s.threads| && s.threads[t].Owing? ==>
                     (s.node.control.state.Dead? <==> s.threads[t].time == 0)
  }

  lemma DebtorIsAnother(s: Slot, a: Action)
    requires AttemptOf(s, a).Some? && !NoDebts(s)
    ensures exists u :: 0 <= u < |s.threads| && u != a.t && s.threads[u].Owing? &&
                        Apply(s, a).threads[u] == s.threads[u]
  {
    var u :| 0 <= u < |s.threads| && s.threads[u].Owing?;
    assert u != a.t && Apply(s, a).threads[u] == s.threads[u];
  }

  lemma SwapKeepsCalmIffTimely(s: Slot, a: Action)
    requires Calm(s) && AttemptOf(s, a).Some?
    ensures Calm(Apply(s, a)) <==> Timely(s, a)
  {
    if !NoDebts(s) {
      DebtorIsAnother(s, a);
    }
    var s', x := Apply(s, a), AttemptOf(s, a).value;
    if s'.threads[a.t].Owing? {
      assert Calm(s') ==> (s'.node.control.state.Dead? <==> s'.threads[a.t].time == 0);
    } else {
      assert NoDebts(s) ==> NoDebts(s');
    }
  }

  lemma OtherActionsKeepCalm(s: Slot, a: Action)
    requires Calm(s) && AttemptOf(s, a).None?
    ensures Calm(Apply(s, a)) && Timely(s, a)
  {
    var s' := Apply(s, a);
    if a.t < |s.threads| && !(a.StoreTime? && s.threads[a.t].Owing?) {
      assert forall u :: 0 <= u < |s.threads| ==> (s'.threads[u].Owing? <==> s.threads[u].Owing?);
    }
  }

  lemma ActionKeepsCalmIffTimely(s: Slot, a: Action)
    requires Calm(s)
    ensures Calm(Apply(s, a)) <==> Timely(s, a)
  {
    hide Calm, Timely, Apply;
    if AttemptOf(s, a).Some? {
      SwapKeepsCalmIffTimely(s, a);
    } else {
      OtherActionsKeepCalm(s, a);
    }
  }

  // ----- paying what is owed -----

  lemma {:induction false} StoresKeepCalm(s: Slot, stores: seq<Action>)
    requires Calm(s) && AllStores(stores)
    ensures Calm(Schedule(s, stores))
  {
    if stores != [] {
      var n := |stores| - 1;
      StoresKeepCalm(s, stores[..n]);
      assert stores[n].StoreTime?;
      OtherActionsKeepCalm(Schedule(s, stores[..n]), stores[n]);
    }
  }

  /** The stores of all of the first n threads but t. */
  function Payments(n: nat, t: nat): (stores: seq<Action>)
    ensures AllStores(stores)
  {
    if n == 0 then [] else if n - 1 == t then Payments(n - 1, t) else Payments(n - 1, t) + [StoreTime(n - 1)]
  }

  lemma StorePays(s: Slot, t: nat)
    requires t < |s.threads|
    ensures Apply(s, StoreTime(t)) ==
            if s.threads[t].Owing?
            then Slot(MetaNode(s.threads[t].time, s.node.control), s.threads[t := Resting]) else s
  {
  }

  /** r is s with the debts of the first n threads paid, all but that of t. */
  ghost predicate PaidBut(s: Slot, r: Slot, n: nat, t: nat) {
    && |r.threads| == |s.threads| && r.node.control == s.node.control
    && (forall u :: 0 <= u < |s.threads| ==>
         if u < n && u != t then !r.threads[u].Owing? else r.threads[u] == s.threads[u])
  }

  lemma OnePaymentMore(s: Slot, r: Slot, n: nat, t: nat)
    requires PaidBut(s, r, n, t) && n < |s.threads|
    ensures PaidBut(s, if n == t then r else Apply(r, StoreTime(n)), n + 1, t)
  {
    StorePays(r, n);
    hide Apply;
  }

  lemma NothingPaid(s: Slot, t: nat)
    ensures PaidBut(s, Schedule(s, Payments(0, t)), 0, t)
  {
  }

  lemma {:induction false} PaymentsPay(s: Slot, n: nat, t: nat)
    requires n <= |s.threads|
    ensures PaidBut(s, Schedule(s, Payments(n, t)), n, t)
  {
    hide Apply, Schedule, PaidBut;
    if n == 0 {
      NothingPaid(s, t);
    } else {
      PaymentsPay(s, n - 1, t);
      OnePaymentMore(s, Schedule(s, Payments(n - 1, t)), n - 1, t);
      Extended(s, Payments(n - 1, t), StoreTime(n - 1));
    }
  }

  lemma Extended(s: Slot, actions: seq<Action>, a: Action)
    ensures Schedule(s, actions + [a]) == Apply(Schedule(s, actions), a)
  {
  }

  /** If thread t owes, its store may be the last. */
  lemma AnyStoreMayBeLast(s: Slot, t: nat)
    requires EndsDated(s) && t < |s.threads| && s.threads[t].Owing?
    ensures s.node.control.state.Dead? <==> s.threads[t].time == 0
  {
    hide Apply, Schedule, Payments;
    var stores := Payments(|s.threads|, t);
    PaymentsPay(s, |s.threads|, t);
    Extended(s, stores, StoreTime(t));
    StorePays(Schedule(s, stores), t);
    var r := Schedule(s, stores + [StoreTime(t)]);
    assert AllStores(stores + [StoreTime(t)]) && NoDebts(r);
    assert r.node == MetaNode(s.threads[t].time, s.node.control);
  }

  lemma CalmIffEndsDated(s: Slot)
    ensures Calm(s) <==> EndsDated(s)
  {
    if Calm(s) {
      forall stores: seq<Action> | AllStores(stores) && NoDebts(Schedule(s, stores))
        ensures DatedSlot(Schedule(s, stores).node)
      {
        StoresKeepCalm(s, stores);
      }
    }
    if EndsDated(s) {
      forall t | 0 <= t < |s.threads| && s.threads[t].Owing?
        ensures s.node.control.state.Dead? <==> s.threads[t].time == 0
      {
        AnyStoreMayBeLast(s, t);
      }
      assert AllStores([]) && Schedule(s, []) == s;
    }
  }

  /** After every part of the schedule the claim time comes out right. */
  ghost predicate AlwaysEndsDated(s: Slot, actions: seq<Action>) {
    forall k :: 0 <= k <= |actions| ==> EndsDated(Schedule(s, actions[..k]))
  }

  lemma AlwaysOneMore(s: Slot, actions: seq<Action>)
    requires actions != []
    ensures AlwaysEndsDated(s, actions) <==>
            AlwaysEndsDated(s, actions[..|actions| - 1]) && EndsDated(Schedule(s, actions))
  {
    hide EndsDated, Schedule;
    var before := actions[..|actions| - 1];
    assert forall k :: 0 <= k < |actions| ==> before[..k] == actions[..k];
    assert actions[..|actions|] == actions;
  }

  lemma AlwaysMeansNow(s: Slot, actions: seq<Action>)
    requires AlwaysEndsDated(s, actions)
    ensures EndsDated(Schedule(s, actions))
  {
    assert actions[..|actions|] == actions;
  }

  /**
    For every schedule of any number of threads: the slot is dead exactly when its claim time is
    zero, whenever nothing is left to be stored and however the stores are ordered, if and only if
    no claim or death takes while a claim time is owed and no eviction fails on a slot in use.
   */
  lemma {:induction false} DatedIffInTime(s: Slot, actions: seq<Action>)
    requires Init(s)
    ensures InTime(s, actions) <==> AlwaysEndsDated(s, actions)
  {
    if actions == [] {
      assert actions[..0] == [] && Schedule(s, []) == s && Calm(s);
      CalmIffEndsDated(s);
    } else {
      hide EndsDated, Calm, Timely, Apply, Init, AlwaysEndsDated;
      var n := |actions| - 1;
      var r := Schedule(s, actions[..n]);
      DatedIffInTime(s, actions[..n]);
      AlwaysOneMore(s, actions);
      CalmIffEndsDated(r);
      CalmIffEndsDated(Schedule(s, actions));
      if InTime(s, actions[..n]) {
        AlwaysMeansNow(s, actions[..n]);
        ActionKeepsCalmIffTimely(r, actions[n]);
      }
    }
  }

  // ----- two ways to go wrong -----

  lemma AfterThree(s: Slot, actions: seq<Action>, a: Action, b: Action, c: Action) returns (actions': seq<Action>)
    ensures Schedule(s, actions') == Apply(Apply(Apply(Schedule(s, actions), a), b), c)
  {
    actions' := actions + [a] + [b] + [c];
    Extended(s, actions, a);
    Extended(s, actions + [a], b);
    Extended(s, actions + [a] + [b], c);
  }

  /** Claimed, yet without the time of its claim. */
  predicate Stranded(m: MetaNode) {
    m.control.state.Pending? && m.createdAt == 0
  }

  lemma ClaimTurn(s: Slot, t: nat, now: Time)
    requires t < |s.threads| && s.threads[t].Resting? && s.node.control.state.Dead?
    ensures Apply(Apply(s, Load(t, L.Claim, now)), Swap(t)) ==
            Slot(MetaNode(s.node.createdAt, Packed(Pending, Hot, 0, 0)), s.threads[t := Owing(now)])
  {
  }

  lemma ExpiryTurn(s: Slot, t: nat, now: Time)
    requires t < |s.threads| && s.threads[t].Resting? && s.node.control.state.Pending?
    requires s.node.createdAt != 0 && Age(now, s.node.createdAt) > PENDING_LIFESPAN
    ensures Apply(Apply(Apply(s, Load(t, L.Expire, now)), LoadTime(t)), Swap(t)) ==
            Slot(MetaNode(s.node.createdAt, s.node.control.(state := Dead)), s.threads[t := Owing(0)])
  {
  }

  lemma RescueTurn(s: Slot, t: nat, now: Time)
    requires t < |s.threads| && s.threads[t].Resting? && s.node.control == Packed(Pending, Hot, 0, 0)
    ensures Apply(Apply(s, Load(t, L.Rescue(12), now)), Swap(t)) ==
            Slot(MetaNode(s.node.createdAt, Packed(Pending, Cold, 0, 12)), s.threads)
  {
  }

  lemma LoadTurn(s: Slot, t: nat, op: L.Op, now: Time)
    requires t < |s.threads| && s.threads[t].Resting?
    ensures Apply(s, Load(t, op, now)) == Slot(s.node, s.threads[t := Loaded(op, s.node.control, now)])
  {
  }

  lemma FailedEvictionTurn(s: Slot, t: nat)
    requires t < |s.threads| && s.threads[t].Loaded? && s.threads[t].op.Evict?
    requires var w := s.threads[t].expected; L.Desired(L.Evict, w).Some? && s.node.control != w
    ensures Apply(s, Swap(t)) == Slot(s.node, s.threads[t := Owing(0)])
  {
  }

  /** Any other turn that takes: the word is swapped, and the matching claim time is owed. */
  lemma TurnTakes(s: Slot, t: nat, op: L.Op, now: Time)
    requires t < |s.threads| && s.threads[t].Resting? && !op.Expire? && L.Desired(op, s.node.control).Some?
    ensures Apply(Apply(s, Load(t, op, now)), Swap(t)) ==
            Slot(s.node.(control := L.Desired(op, s.node.control).value),
                 s.threads[t := if op.Claim? then Owing(now) else if op.Evict? then Owing(0) else Resting])
  {
    hide L.Desired;
  }

  /** A swap that fails leaves the slot alone, and only an eviction owes something for it. */
  lemma TurnFails(s: Slot, t: nat)
    requires t < |s.threads| && s.threads[t].Loaded? && !s.threads[t].op.Expire?
    requires s.node.control != s.threads[t].expected && L.Desired(s.threads[t].op, s.threads[t].expected).Some?
    ensures Apply(s, Swap(t)) == Slot(s.node, s.threads[t := if s.threads[t].op.Evict? then Owing(0) else Resting])
  {
    hide L.Desired;
  }

  /** Within its thirty seconds, or without a claim time, a claim is not expired. */
  lemma EarlyExpiryDoesNothing(s: Slot, t: nat, now: Time)
    requires t < |s.threads| && s.threads[t].Resting?
    requires !s.node.control.state.Pending? || s.node.createdAt == 0 || Age(now, s.node.createdAt) <= 30
    ensures Apply(Apply(Apply(s, Load(t, L.Expire, now)), LoadTime(t)), Swap(t)) == s
  {
    var r := Apply(Apply(s, Load(t, L.Expire, now)), LoadTime(t));
    assert r.threads == s.threads;
  }

  /** A thread that expired the slot stores its zero only after another has claimed the slot anew. */
  lemma LateStoreStrandsClaim(s: Slot) returns (actions: seq<Action>)
    requires Init(s) && |s.threads| == 2
    ensures NoDebts(Schedule(s, actions)) && Stranded(Schedule(s, actions).node)
  {
    var claimed := AfterThree(s, [], Load(0, L.Claim, 5), Swap(0), StoreTime(0));
    var expired := AfterThree(s, claimed, Load(1, L.Expire, 40), LoadTime(1), Swap(1));
    var again := AfterThree(s, expired, Load(0, L.Claim, 41), Swap(0), StoreTime(0));
    actions := again + [StoreTime(1)];
    Extended(s, again, StoreTime(1));
    assert Schedule(s, []) == s;
    hide Apply, Schedule;
    ClaimTurn(s, 0, 5);
    StorePays(Slot(MetaNode(0, Packed(Pending, Hot, 0, 0)), s.threads[0 := Owing(5)]), 0);
    ExpiryTurn(Schedule(s, claimed), 1, 40);
    ClaimTurn(Schedule(s, expired), 0, 41);
    StorePays(Apply(Apply(Schedule(s, expired), Load(0, L.Claim, 41)), Swap(0)), 0);
    StorePays(Schedule(s, again), 1);
  }

  /** A claim that the collector has carried along once, and whose word it then loads to evict it. */
  lemma ColdClaimIsMet(s: Slot) returns (actions: seq<Action>)
    requires Init(s) && |s.threads| == 2
    ensures var w := Packed(Pending, Cold, 0, 12);
            Schedule(s, actions) == Slot(MetaNode(5, w), [Resting, Loaded(L.Evict, w, 7)])
  {
    var claimed := AfterThree(s, [], Load(0, L.Claim, 5), Swap(0), StoreTime(0));
    actions := AfterThree(s, claimed, Load(1, L.Rescue(12), 6), Swap(1), Load(1, L.Evict, 7));
    assert Schedule(s, []) == s;
    hide Apply, Schedule;
    ClaimTurn(s, 0, 5);
    StorePays(Slot(MetaNode(0, Packed(Pending, Hot, 0, 0)), s.threads[0 := Owing(5)]), 0);
    RescueTurn(Schedule(s, claimed), 1, 6);
    LoadTurn(Apply(Apply(Schedule(s, claimed), Load(1, L.Rescue(12), 6)), Swap(1)), 1, L.Evict, 7);
  }

  /**
    The collector's swap fails, because the slot has been expired and claimed anew, each with its
    claim time in place; it stores its zero nevertheless.
   */
  lemma FailedEvictionStrandsClaim(s: Slot) returns (actions: seq<Action>)
    requires Init(s) && |s.threads| == 2
    ensures NoDebts(Schedule(s, actions)) && Stranded(Schedule(s, actions).node)
  {
    var met := ColdClaimIsMet(s);
    var expired := AfterThree(s, met, Load(0, L.Expire, 40), LoadTime(0), Swap(0));
    var again := AfterThree(s, expired, StoreTime(0), Load(0, L.Claim, 41), Swap(0));
    actions := AfterThree(s, again, StoreTime(0), Swap(1), StoreTime(1));
    hide Apply, Schedule, Init;
    ExpiryTurn(Schedule(s, met), 0, 40);
    StorePays(Schedule(s, expired), 0);
    ClaimTurn(Apply(Schedule(s, expired), StoreTime(0)), 0, 41);
    StorePays(Schedule(s, again), 0);
    FailedEvictionTurn(Apply(Schedule(s, again), StoreTime(0)), 1);
    StorePays(Apply(Apply(Schedule(s, again), StoreTime(0)), Swap(1)), 1);
  }

  // ----- what becomes of a stranded claim -----

  lemma StrandedAfterCall(w: World, c: Call, w': World, n: nat)
    requires Performs(w, c, w') && |w.vectors| == TOTAL_MAX_SLOTS && n < TOTAL_MAX_SLOTS
    ensures |w'.vectors| == TOTAL_MAX_SLOTS
    ensures Stranded(w'.arena.nodes[n]) <==> Stranded(w.arena.nodes[n]) && !Fills(w, c, n) && !Evicts(w, c, n)
    ensures Stranded(w.arena.nodes[n]) ==> !Claims(c, n) && (c.Check? ==> c.best != n)
  {
    hide Put, Slice, RecordBytes, HeaderAt, Dot;
    SlotAfterCall(w, c, w', n);
  }

  /**
    A stranded slot is lost: over any sequence of calls it stays so until a late SetCache fills it or
    the collector happens to evict it, and no longer; meanwhile no CheckCache searches it or hands it out.
   */
  lemma {:induction false} StrandedUntilFilledOrEvicted(worlds: seq<World>, calls: seq<Call>, n: nat, k: nat)
    requires Proceeds(worlds, calls) && |worlds[0].vectors| == TOTAL_MAX_SLOTS && n < TOTAL_MAX_SLOTS
    requires Stranded(worlds[0].arena.nodes[n]) && k <= |calls|
    ensures |worlds[k].vectors| == TOTAL_MAX_SLOTS
    ensures Stranded(worlds[k].arena.nodes[n]) <==>
            forall i :: 0 <= i < k ==> !Fills(worlds[i], calls[i], n) && !Evicts(worlds[i], calls[i], n)
    ensures Stranded(worlds[k].arena.nodes[n]) && k < |calls| ==>
              !Claims(calls[k], n) && (calls[k].Check? ==> calls[k].best != n)
  {
    hide Performs, Fills, Evicts, Stranded;
    if k > 0 {
      StrandedUntilFilledOrEvicted(worlds, calls, n, k - 1);
      StrandedAfterCall(worlds[k - 1], calls[k - 1], worlds[k], n);
    }
    if k < |calls| {
      StrandedAfterCall(worlds[k], calls[k], worlds[k + 1], n);
    }
  }
}
