/**
  Pioneers and their herds (gateway/internal/proxy/registry.go) under arbitrary interleavings.
  A pioneer registers a promise, later writes the result, closes the channel and deletes the
  entry of its node, as separate steps; a herd member looks a promise up, then waits.
 */
module Herd {
  import opened Ring
  import opened Registry

  datatype Answer = Answer(payload: seq<Byte>, err: LlmError)

  /** A promise as an object of the heap, named by its position. */
  datatype PromiseCell = PromiseCell(payload: seq<Byte>, err: LlmError, closed: bool)

  datatype Phase = Registered | Written(answer: Answer) | Closed(answer: Answer) | Finished(answer: Answer)

  datatype Pioneer = Pioneer(node: Int32, promise: nat, phase: Phase)

  datatype Waiter =
    | NotFound(node: Int32)
    | Waiting(node: Int32, promise: nat)
    | Delivered(node: Int32, promise: nat, got: Answer)
    | SelfCancelled(node: Int32, promise: nat)

  datatype State = State(heap: seq<PromiseCell>, registry: map<Int32, nat>,
                         pioneers: seq<Pioneer>, waiters: seq<Waiter>)

  datatype Action =
    | Register(node: Int32)
    | WriteResult(k: nat, answer: Answer)
    | Close(k: nat)
    | Delete(k: nat)
    | LookUp(node: Int32)
    | Receive(w: nat)
    | Cancel(w: nat)

  const EMPTY := State([], map[], [], [])

  /** Whether an action can happen. A receive blocks until the channel is closed. */
  predicate Enabled(s: State, a: Action) {
    match a
    case Register(_) => true
    case WriteResult(k, _) => k < |s.pioneers| && s.pioneers[k].phase.Registered? && s.pioneers[k].promise < |s.heap|
    case Close(k) => k < |s.pioneers| && s.pioneers[k].phase.Written? && s.pioneers[k].promise < |s.heap|
    case Delete(k) => k < |s.pioneers| && s.pioneers[k].phase.Closed?
    case LookUp(_) => true
    case Receive(w) =>
      w < |s.waiters| && s.waiters[w].Waiting? && s.waiters[w].promise < |s.heap| && s.heap[s.waiters[w].promise].closed
    case Cancel(w) => w < |s.waiters| && s.waiters[w].Waiting?
  }

  function Apply(s: State, a: Action): State
    requires Enabled(s, a)
  {
    match a
    case Register(n) =>
      State(s.heap + [PromiseCell([], NoError, false)], s.registry[n := |s.heap|],
            s.pioneers + [Pioneer(n, |s.heap|, Registered)], s.waiters)
    case WriteResult(k, answer) =>
      var p := s.pioneers[k];
      s.(heap := s.heap[p.promise := s.heap[p.promise].(payload := answer.payload, err := answer.err)],
         pioneers := s.pioneers[k := p.(phase := Written(answer))])
    case Close(k) =>
      var p := s.pioneers[k];
      s.(heap := s.heap[p.promise := s.heap[p.promise].(closed := true)],
         pioneers := s.pioneers[k := p.(phase := Closed(p.phase.answer))])
    case Delete(k) =>
      var p := s.pioneers[k];
      s.(registry := s.registry - {p.node}, pioneers := s.pioneers[k := p.(phase := Finished(p.phase.answer))])
    case LookUp(n) =>
      s.(waiters := s.waiters + [if n in s.registry then Waiting(n, s.registry[n]) else NotFound(n)])
    case Receive(w) =>
      var x := s.waiters[w];
      var cell := s.heap[x.promise];
      s.(waiters := s.waiters[w := Delivered(x.node, x.promise, Answer(cell.payload, cell.err))])
    case Cancel(w) =>
      s.(waiters := s.waiters[w := SelfCancelled(s.waiters[w].node, s.waiters[w].promise)])
  }

  /** The states that some interleaving can reach. */
  ghost predicate Trace(states: seq<State>, actions: seq<Action>) {
    && |states| == |actions| + 1 && states[0] == EMPTY
    && forall i :: 0 <= i < |actions| ==>
         Enabled(states[i], actions[i]) && states[i + 1] == Apply(states[i], actions[i])
  }

  // ----- invariant -----

  /** Pioneer k and its promise agree on how far the fulfilment has come. */
  ghost predicate PioneerInv(p: Pioneer, cell: PromiseCell) {
    match p.phase
    case Registered => !cell.closed
    case Written(answer) => !cell.closed && Answer(cell.payload, cell.err) == answer
    case Closed(answer) => cell.closed && Answer(cell.payload, cell.err) == answer
    case Finished(answer) => cell.closed && Answer(cell.payload, cell.err) == answer
  }

  ghost predicate WaiterInv(s: State, x: Waiter) {
    !x.NotFound? ==>
      && x.promise < |s.pioneers| && s.pioneers[x.promise].node == x.node
      && (x.Delivered? ==>
           (s.pioneers[x.promise].phase.Closed? || s.pioneers[x.promise].phase.Finished?) &&
           s.pioneers[x.promise].phase.answer == x.got)
  }

  ghost predicate PioneersInv(s: State) {
    && |s.heap| == |s.pioneers|
    && forall k :: 0 <= k < |s.pioneers| ==> s.pioneers[k].promise == k && PioneerInv(s.pioneers[k], s.heap[k])
  }

  /** An entry belongs to a pioneer of its node that has not finished. */
  ghost predicate RegistryInv(s: State) {
    forall n :: n in s.registry ==>
      s.registry[n] < |s.pioneers| && s.pioneers[s.registry[n]].node == n &&
      !s.pioneers[s.registry[n]].phase.Finished?
  }

  ghost predicate WaitersInv(s: State) {
    forall w :: 0 <= w < |s.waiters| ==> WaiterInv(s, s.waiters[w])
  }

  ghost predicate Inv(s: State) {
    PioneersInv(s) && RegistryInv(s) && WaitersInv(s)
  }

  lemma ApplyKeepsWaiters(s: State, a: Action)
    requires Inv(s) && Enabled(s, a)
    ensures WaitersInv(Apply(s, a))
  {
    var s' := Apply(s, a);
    forall w | 0 <= w < |s'.waiters| ensures WaiterInv(s', s'.waiters[w]) {
      if w < |s.waiters| {
        assert WaiterInv(s, s.waiters[w]);
      }
    }
  }

  lemma ApplyKeepsPioneers(s: State, a: Action)
    requires PioneersInv(s) && Enabled(s, a)
    ensures PioneersInv(Apply(s, a))
  {
  }

  lemma ApplyKeepsRegistry(s: State, a: Action)
    requires PioneersInv(s) && RegistryInv(s) && Enabled(s, a)
    ensures RegistryInv(Apply(s, a))
  {
  }

  lemma ApplyKeepsInv(s: State, a: Action)
    requires Inv(s) && Enabled(s, a)
    ensures Inv(Apply(s, a))
  {
    hide Apply, PioneersInv, RegistryInv, WaitersInv;
    ApplyKeepsWaiters(s, a);
    ApplyKeepsPioneers(s, a);
    ApplyKeepsRegistry(s, a);
  }

  lemma {:induction false} TraceKeepsInv(states: seq<State>, actions: seq<Action>, i: nat)
    requires Trace(states, actions) && i <= |actions|
    ensures Inv(states[i])
  {
    if i > 0 {
      TraceKeepsInv(states, actions, i - 1);
      ApplyKeepsInv(states[i - 1], actions[i - 1]);
    }
  }

  // ----- what it means -----

  /** Step i is the one in which pioneer k hands over its result. */
  ghost predicate WrittenAt(actions: seq<Action>, i: nat, k: nat, answer: Answer) {
    i < |actions| && actions[i] == WriteResult(k, answer)
  }

  lemma {:induction false} AnswerWasWritten(states: seq<State>, actions: seq<Action>, i: nat, k: nat)
    returns (j: nat)
    requires Trace(states, actions) && i <= |actions|
    requires k < |states[i].pioneers| && !states[i].pioneers[k].phase.Registered?
    ensures j < i && WrittenAt(actions, j, k, states[i].pioneers[k].phase.answer)
  {
    var a := actions[i - 1];
    assert states[i] == Apply(states[i - 1], a);
    if a.WriteResult? && a.k == k {
      j := i - 1;
    } else {
      j := AnswerWasWritten(states, actions, i - 1, k);
    }
  }

  /**
    Herd delivery. In every interleaving, what a waiter receives is exactly the payload and
    error that the pioneer of the promise it found handed over, and that pioneer serves the
    waiter's node, no matter who has registered or deleted that node in the meantime.
   */
  lemma DeliveredIsWritten(states: seq<State>, actions: seq<Action>, i: nat, w: nat) returns (j: nat)
    requires Trace(states, actions) && i <= |actions|
    requires w < |states[i].waiters| && states[i].waiters[w].Delivered?
    ensures var x := states[i].waiters[w];
            j < i && WrittenAt(actions, j, x.promise, x.got) &&
            x.promise < |states[i].pioneers| && states[i].pioneers[x.promise].node == x.node
  {
    TraceKeepsInv(states, actions, i);
    var x := states[i].waiters[w];
    assert WaiterInv(states[i], x);
    j := AnswerWasWritten(states, actions, i, x.promise);
  }

  /** A waiter keeps to the promise that its look-up found. */
  lemma WaiterKeepsItsPromise(s: State, a: Action, w: nat)
    requires Enabled(s, a) && w < |s.waiters|
    ensures var x, y := s.waiters[w], Apply(s, a).waiters[w];
            x.node == y.node && (x.NotFound? <==> y.NotFound?) && (!x.NotFound? ==> x.promise == y.promise) &&
            (x.Delivered? ==> y == x)
  {
  }

  /** A close never finds its channel closed, so it does not panic. */
  lemma ClosesOnce(states: seq<State>, actions: seq<Action>, i: nat)
    requires Trace(states, actions) && i < |actions| && actions[i].Close?
    ensures var k := actions[i].k;
            k < |states[i].heap| && !states[i].heap[k].closed && states[i + 1].heap[k].closed
  {
    TraceKeepsInv(states, actions, i);
  }

  /** What a closed promise holds never changes again. */
  lemma ClosedIsFinal(s: State, a: Action, k: nat)
    requires Inv(s) && Enabled(s, a) && k < |s.heap| && s.heap[k].closed
    ensures Apply(s, a).heap[k] == s.heap[k]
  {
  }

  /** When every pioneer has finished, the registry is empty and no waiter is left hanging. */
  lemma NothingLeaks(states: seq<State>, actions: seq<Action>, i: nat)
    requires Trace(states, actions) && i <= |actions|
    requires forall k :: 0 <= k < |states[i].pioneers| ==> states[i].pioneers[k].phase.Finished?
    ensures states[i].registry == map[]
    ensures forall w: nat :: w < |states[i].waiters| && states[i].waiters[w].Waiting? ==> Enabled(states[i], Receive(w))
  {
    TraceKeepsInv(states, actions, i);
    var s := states[i];
    forall w: nat | w < |s.waiters| && s.waiters[w].Waiting? ensures Enabled(s, Receive(w)) {
      assert WaiterInv(s, s.waiters[w]);
      assert PioneerInv(s.pioneers[s.waiters[w].promise], s.heap[s.waiters[w].promise]);
    }
    assert forall n :: n !in s.registry;
  }

  /**
    The registry itself is weaker than it looks: the delete goes by node, so a pioneer that
    finishes removes a newer pioneer's entry, and later herd members do not find it.
   */
  lemma OlderDeleteRemovesNewer(n: Int32) returns (states: seq<State>, actions: seq<Action>)
    ensures Trace(states, actions)
    ensures var s := states[|actions|];
            |s.pioneers| == 2 && s.pioneers[1] == Pioneer(n, 1, Registered) && n !in s.registry
  {
    var r := Answer([], NoError);
    actions := [Register(n), Register(n), WriteResult(0, r), Close(0), Delete(0)];
    var s1 := Apply(EMPTY, actions[0]);
    var s2 := Apply(s1, actions[1]);
    var s3 := Apply(s2, actions[2]);
    var s4 := Apply(s3, actions[3]);
    states := [EMPTY, s1, s2, s3, s4, Apply(s4, actions[4])];
  }

  /** Step j removes whatever entry node n has. */
  ghost predicate DeletesNode(states: seq<State>, actions: seq<Action>, j: nat, n: Int32)
    requires Trace(states, actions) && j < |actions|
  {
    actions[j].Delete? && states[j].pioneers[actions[j].k].node == n
  }

  /** Step j is the latest registration for n before i, and nobody has deleted n since. */
  ghost predicate Registration(states: seq<State>, actions: seq<Action>, i: nat, n: Int32, j: nat)
    requires Trace(states, actions) && i <= |actions|
  {
    && j < i && actions[j] == Register(n)
    && forall m :: j < m < i ==> actions[m] != Register(n) && !DeletesNode(states, actions, m, n)
  }

  lemma RegistrationAfterStep(states: seq<State>, actions: seq<Action>, i: nat, n: Int32, j: nat)
    requires Trace(states, actions) && i < |actions|
    ensures Registration(states, actions, i + 1, n, j) <==>
            if actions[i] == Register(n) then j == i
            else Registration(states, actions, i, n, j) && !DeletesNode(states, actions, i, n)
  {
  }

  lemma EntryAfterStep(states: seq<State>, actions: seq<Action>, i: nat, n: Int32)
    requires Trace(states, actions) && i < |actions|
    ensures var before, after := states[i].registry, states[i + 1].registry;
            if actions[i] == Register(n) then n in after && after[n] == |states[i].heap|
            else if DeletesNode(states, actions, i, n) then n !in after
            else (n in after <==> n in before) && (n in before ==> after[n] == before[n])
  {
    assert states[i + 1] == Apply(states[i], actions[i]);
  }

  /**
    Exactly when a herd member finds a promise: some pioneer has registered the node and no
    pioneer of that node has finished since. It then finds the latest such promise.
   */
  lemma {:induction false} FoundIffRegistered(states: seq<State>, actions: seq<Action>, i: nat, n: Int32)
    requires Trace(states, actions) && i <= |actions|
    ensures n in states[i].registry <==> exists j: nat :: Registration(states, actions, i, n, j)
    ensures forall j: nat :: Registration(states, actions, i, n, j) ==>
              n in states[i].registry && states[i].registry[n] == |states[j].heap|
  {
    hide DeletesNode, Apply, Enabled;
    if i > 0 {
      FoundIffRegistered(states, actions, i - 1, n);
      EntryAfterStep(states, actions, i - 1, n);
      if actions[i - 1] == Register(n) {
        RegistrationAfterStep(states, actions, i - 1, n, i - 1);
      } else if n in states[i].registry {
        var j: nat :| Registration(states, actions, i - 1, n, j);
        RegistrationAfterStep(states, actions, i - 1, n, j);
      }
      forall j: nat | Registration(states, actions, i, n, j)
        ensures n in states[i].registry && states[i].registry[n] == |states[j].heap|
      {
        RegistrationAfterStep(states, actions, i - 1, n, j);
      }
    }
  }

  // ----- what becomes of a herd member -----

  /**
    In every interleaving a look-up adds one waiter: it waits on the promise of the latest registration
    of its node, if no pioneer of the node has deleted since, and finds nothing if there is none.
   */
  lemma LookUpFinds(states: seq<State>, actions: seq<Action>, i: nat, n: Int32)
    requires Trace(states, actions) && i < |actions| && actions[i] == LookUp(n)
    ensures |states[i + 1].waiters| == |states[i].waiters| + 1 && states[i].waiters < states[i + 1].waiters
    ensures var x := states[i + 1].waiters[|states[i].waiters|];
            (forall j: nat :: Registration(states, actions, i, n, j) ==> x == Waiting(n, |states[j].heap|)) &&
            (x == NotFound(n) <==> !exists j: nat :: Registration(states, actions, i, n, j))
  {
    hide Registration;
    FoundIffRegistered(states, actions, i, n);
    assert states[i + 1] == Apply(states[i], actions[i]);
  }

  /** A waiter whose channel is closed receives, and what it receives is what that promise's pioneer wrote. */
  lemma ReceiveDelivers(states: seq<State>, actions: seq<Action>, i: nat, w: nat) returns (j: nat)
    requires Trace(states, actions) && i < |actions| && actions[i] == Receive(w)
    ensures w < |states[i].waiters| && states[i].waiters[w].Waiting?
    ensures var x := states[i].waiters[w];
            x.promise < |states[i].heap| && states[i].heap[x.promise].closed && j < i &&
            actions[j].WriteResult? && actions[j].k == x.promise &&
            states[i + 1].waiters == states[i].waiters[w := Delivered(x.node, x.promise, actions[j].answer)]
  {
    assert Enabled(states[i], actions[i]) && states[i + 1] == Apply(states[i], actions[i]);
    TraceKeepsInv(states, actions, i);
    var x := states[i].waiters[w];
    assert WaiterInv(states[i], x) && PioneerInv(states[i].pioneers[x.promise], states[i].heap[x.promise]);
    j := AnswerWasWritten(states, actions, i, x.promise);
  }

  /** Cancelling ends one waiter's wait and concerns nobody else. */
  lemma CancelConcernsNobodyElse(s: State, w: nat)
    requires Enabled(s, Cancel(w))
    ensures w < |s.waiters| && s.waiters[w].Waiting?
    ensures Apply(s, Cancel(w)) ==
            s.(waiters := s.waiters[w := SelfCancelled(s.waiters[w].node, s.waiters[w].promise)])
  {
  }

  /** Each registration makes a promise of its own, open and empty, and leaves all others alone. */
  lemma RegisterMakesPromise(s: State, n: Int32)
    requires Inv(s)
    ensures var s' := Apply(s, Register(n));
            |s'.heap| == |s.heap| + 1 && s.heap < s'.heap && !s'.heap[|s.heap|].closed &&
            s'.registry == s.registry[n := |s.heap|] && s'.waiters == s.waiters &&
            s'.pioneers == s.pioneers + [Pioneer(n, |s.heap|, Registered)]
  {
  }

  /** Nobody is ever stuck but a waiter whose pioneer has not closed: every other next action can happen. */
  lemma OnlyWaitersWait(states: seq<State>, actions: seq<Action>, i: nat, n: Int32, k: nat, answer: Answer, w: nat)
    requires Trace(states, actions) && i <= |actions|
    ensures Enabled(states[i], Register(n)) && Enabled(states[i], LookUp(n))
    ensures k < |states[i].pioneers| ==>
              match states[i].pioneers[k].phase
              case Registered => Enabled(states[i], WriteResult(k, answer))
              case Written(_) => Enabled(states[i], Close(k))
              case Closed(_) => Enabled(states[i], Delete(k))
              case Finished(_) => true
    ensures w < |states[i].waiters| && states[i].waiters[w].Waiting? ==>
              var p := states[i].waiters[w].promise;
              Enabled(states[i], Cancel(w)) && p < |states[i].pioneers| &&
              (Enabled(states[i], Receive(w)) <==>
               states[i].pioneers[p].phase.Closed? || states[i].pioneers[p].phase.Finished?)
  {
    TraceKeepsInv(states, actions, i);
    if w < |states[i].waiters| && states[i].waiters[w].Waiting? {
      var p := states[i].waiters[w].promise;
      assert WaiterInv(states[i], states[i].waiters[w]);
      assert PioneerInv(states[i].pioneers[p], states[i].heap[p]);
    }
  }
}
