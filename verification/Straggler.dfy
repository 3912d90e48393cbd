/**
  Readable slots and the tail under arbitrary interleavings. The collector loads a slot's word, acts
  on it, tries a swap whose result it ignores, and moves the tail on; a SetCache writes its record
  first and swaps later. Either may leave a readable slot behind the tail, and this file says when.
 */
module Stragglers {
  import opened Node
  import opened Ring
  import opened ArenaModel
  import L = Lifecycle

  /** An allocated record; its size counts the header. */
  datatype Rec = Rec(start: nat, node: nat, size: nat)

  /** A slot's word and, for the proofs, the start of the record that it was filled or moved with last. */
  datatype Cell = Cell(word: Control, start: nat)

  datatype Thread =
    | Resting
    | Loaded(op: L.Op, node: nat, expected: Control)
    | Holding(rec: Rec)                     // SetCache has written its record
    | Filling(rec: Rec, expected: Control)  // and loaded the word

  datatype Phase =
    | Looking
    | Met(expected: Control)                // has loaded the word of the oldest record's slot
    | Copied(expected: Control, copy: Rec)
    | Leaving                                  // about to move the tail past the oldest record
    | Halted

  /** The queue holds the records from the tail on. Leaps over padding are left out. */
  datatype State = State(cells: seq<Cell>, queue: seq<Rec>, head: nat, threads: seq<Thread>, phase: Phase)

  datatype Action =
    | Load(t: nat, op: L.Op, node: nat)
    | Allocate(t: nat, node: nat, length: nat)
    | LoadWord(t: nat)
    | Swap(t: nat)
    | Meet
    | Judge
    | Take
    | Pass

  function TailOf(queue: seq<Rec>, head: nat): nat {
    if queue == [] then head else queue[0].start
  }

  function Tail(s: State): nat {
    TailOf(s.queue, s.head)
  }

  /** The back-pressure test, for a record of this size. */
  predicate Grants(s: State, size: nat) {
    s.head + size - Tail(s) < SIZE
  }

  function WithThread(s: State, t: nat, th: Thread): State
    requires t < |s.threads|
  {
    s.(threads := s.threads[t := th])
  }

  /** A record behind the head. */
  function Next(s: State, node: nat, size: nat): Rec {
    Rec(s.head + Pad(s.head), node, size)
  }

  function Appended(s: State, r: Rec): State {
    s.(queue := s.queue + [r], head := r.start + r.size)
  }

  function ThreadStep(s: State, a: Action): State
    requires a.Load? || a.Allocate? || a.LoadWord? || a.Swap?
    requires a.t < |s.threads|
  {
    match (a, s.threads[a.t])
    case (Load(t, op, n), Resting) =>
      if n < |s.cells| && (op.Claim? || op.Expire? || op.Hit?)
      then WithThread(s, t, Loaded(op, n, s.cells[n].word)) else s
    case (Allocate(t, n, length), Resting) =>
      if n < |s.cells| && length <= MAX_PAYLOAD_LENGTH && Grants(s, HDR + length) then
        WithThread(Appended(s, Next(s, n, HDR + length)), t, Holding(Next(s, n, HDR + length)))
      else s
    case (LoadWord(t), Holding(r)) =>
      if r.node < |s.cells| then WithThread(s, t, Filling(r, s.cells[r.node].word)) else s
    case (Swap(t), Loaded(op, n, e)) =>
      if n < |s.cells| && s.cells[n].word == e && L.Desired(op, e).Some?
      then WithThread(s.(cells := s.cells[n := s.cells[n].(word := L.Desired(op, e).value)]), t, Resting)
      else WithThread(s, t, Resting)
    case (Swap(t), Filling(r, e)) =>
      if !e.state.Pending? || r.node >= |s.cells| || r.size < HDR then WithThread(s, t, Resting)
      else if s.cells[r.node].word == e then
        WithThread(s.(cells := s.cells[r.node := Cell(Packed(Ready, Hot, r.size - HDR, r.start), r.start)]), t, Resting)
      else WithThread(s, t, Filling(r, s.cells[r.node].word))
    case _ => s
  }

  /** The collector, one access to a word at a time. */
  function CollectorStep(s: State, a: Action): State
    requires s.queue != [] && s.queue[0].node < |s.cells|
  {
    var r := s.queue[0];
    var cell := s.cells[r.node];
    match (a, s.phase)
    case (Meet, Looking) =>
      if s.head - Tail(s) >= LOW_WATERMARK_THRESHOLD then s.(phase := Met(cell.word)) else s
    case (Judge, Met(e)) =>
      if e.state.Dead? || e.offset != r.start % OFFSET_MODULUS then s.(phase := Leaving)
      else if e.refBit.Cold? then
        s.(cells := if cell.word == e then s.cells[r.node := cell.(word := e.(state := Dead))] else s.cells,
           phase := Leaving)
      else if !Grants(s, r.size) then s.(phase := Halted)
      else Appended(s, Next(s, r.node, r.size)).(phase := Copied(e, Next(s, r.node, r.size)))
    case (Take, Copied(e, copy)) =>
      s.(cells := if cell.word == e
                  then s.cells[r.node := Cell(Packed(e.state, Cold, e.length, copy.start), copy.start)]
                  else s.cells,
         phase := Leaving)
    case (Pass, Leaving) => s.(queue := s.queue[1..], phase := Looking)
    case _ => s
  }

  function Apply(s: State, a: Action): State {
    if a.Load? || a.Allocate? || a.LoadWord? || a.Swap? then
      if a.t < |s.threads| then ThreadStep(s, a) else s
    else if s.queue != [] && s.queue[0].node < |s.cells| then CollectorStep(s, a)
    else s
  }

  function Schedule(s: State, actions: seq<Action>): State {
    if actions == [] then s else Apply(Schedule(s, actions[..|actions| - 1]), actions[|actions| - 1])
  }

  ghost predicate Init(s: State) {
    && (forall n :: 0 <= n < |s.cells| ==> s.cells[n] == Cell(L.DEAD_WORD, 0))
    && (forall t :: 0 <= t < |s.threads| ==> s.threads[t].Resting?)
    && s.queue == [] && s.head == 0 && s.phase == Looking
  }

  // ----- left alone -----

  /** A claim, expiry or hit left alone is the operation of the life cycle. */
  lemma LoneOperation(s: State, t: nat, op: L.Op, n: nat)
    requires t < |s.threads| && s.threads[t].Resting? && n < |s.cells| && (op.Claim? || op.Expire? || op.Hit?)
    ensures Apply(Apply(s, Load(t, op, n)), Swap(t)) ==
            match L.Desired(op, s.cells[n].word)
            case None => s
            case Some(w) => s.(cells := s.cells[n := s.cells[n].(word := w)])
  {
    hide L.Desired;
    assert s.threads[t := Loaded(op, n, s.cells[n].word)][t := Resting] == s.threads;
  }

  /** A SetCache left alone writes its record behind the head and fills the slot exactly if it is pending. */
  lemma LoneSetCache(s: State, t: nat, n: nat, length: nat)
    requires t < |s.threads| && s.threads[t].Resting? && n < |s.cells| && length <= MAX_PAYLOAD_LENGTH
    ensures var v := s.head + Pad(s.head);
            Apply(Apply(Apply(s, Allocate(t, n, length)), LoadWord(t)), Swap(t)) ==
            if s.head + 12 + length - Tail(s) >= 0x1_0000_0000 then s
            else
              s.(queue := s.queue + [Rec(v, n, 12 + length)], head := v + 12 + length,
                 cells := if s.cells[n].word.state.Pending?
                          then s.cells[n := Cell(Packed(Ready, Hot, length, v), v)] else s.cells)
  {
    hide Pad;
    if Grants(s, HDR + length) {
      var r := Next(s, n, HDR + length);
      var r1 := Apply(s, Allocate(t, n, length));
      assert r1 == Appended(s, r).(threads := s.threads[t := Holding(r)]);
      var r2 := Apply(r1, LoadWord(t));
      assert r2 == Appended(s, r).(threads := s.threads[t := Filling(r, s.cells[n].word)]);
      assert s.threads[t := Filling(r, s.cells[n].word)][t := Resting] == s.threads;
    }
  }

  /** A SetCache whose swap fails goes on with the word it met. */
  lemma LateFillTriesAgain(s: State, t: nat)
    requires t < |s.threads| && s.threads[t].Filling?
    requires var r := s.threads[t].rec; HDR <= r.size && r.node < |s.cells|
    requires s.threads[t].expected.state.Pending? && s.cells[s.threads[t].rec.node].word != s.threads[t].expected
    ensures var r := s.threads[t].rec;
            Apply(s, Swap(t)) == s.(threads := s.threads[t := Filling(r, s.cells[r.node].word)])
  {
  }

  /** Below the low watermark the collector does not begin. */
  lemma RestsBelowWatermark(s: State)
    requires s.phase == Looking && s.head - Tail(s) < 0x8000_0000
    ensures Apply(s, Meet) == s
  {
  }

  /** An iteration of the collector left alone: skip, evict or rescue, and move the tail on, or halt. */
  lemma LoneIteration(s: State)
    requires s.phase == Looking && s.queue != [] && s.queue[0].node < |s.cells|
    requires s.head - Tail(s) >= 0x8000_0000
    ensures var r, v := s.queue[0], s.head + Pad(s.head);
            var c, n := s.cells[s.queue[0].node], s.queue[0].node;
            Apply(Apply(Apply(Apply(s, Meet), Judge), Take), Pass) ==
            if c.word.state.Dead? || c.word.offset != r.start % 0x20_0000_0000 then s.(queue := s.queue[1..])
            else if c.word.refBit.Cold? then
              s.(queue := s.queue[1..], cells := s.cells[n := c.(word := c.word.(state := Dead))])
            else if s.head + r.size - r.start >= 0x1_0000_0000 then s.(phase := Halted)
            else
              s.(queue := s.queue[1..] + [Rec(v, n, r.size)], head := v + r.size,
                 cells := s.cells[n := Cell(Packed(c.word.state, Cold, c.word.length, v), v)])
  {
    hide Pad;
    var r := s.queue[0];
    assert (s.queue + [Next(s, r.node, r.size)])[1..] == s.queue[1..] + [Next(s, r.node, r.size)];
  }

  // ----- what every schedule keeps -----

  ghost predicate Ordered(queue: seq<Rec>, head: nat) {
    && TailOf(queue, head) <= head <= TailOf(queue, head) + SIZE + HDR
    && (forall i :: 0 <= i < |queue| ==> HDR <= queue[i].size && queue[i].start + queue[i].size <= head)
    && (forall i, j :: 0 <= i < j < |queue| ==> queue[i].start + queue[i].size <= queue[j].start)
  }

  ghost predicate Within(queue: seq<Rec>, cells: nat) {
    forall i :: 0 <= i < |queue| ==> queue[i].node < cells
  }

  predicate IsAt(r: Rec, start: nat, n: nat) {
    r.start == start && r.node == n
  }

  /** A record of slot n was put here; it is still in the queue, unless the tail has passed it. */
  ghost predicate Rooted(queue: seq<Rec>, head: nat, start: nat, n: nat) {
    && start < head
    && (TailOf(queue, head) <= start ==> exists i :: 0 <= i < |queue| && IsAt(queue[i], start, n))
  }

  ghost predicate CellInv(c: Cell, n: nat, queue: seq<Rec>, head: nat) {
    && !c.word.state.Migrating?
    && (c.word.state.Ready? ==> c.word.offset == c.start % OFFSET_MODULUS && Rooted(queue, head, c.start, n))
  }

  ghost predicate ThreadInv(th: Thread, queue: seq<Rec>, head: nat) {
    match th
    case Loaded(op, _, _) => op.Claim? || op.Expire? || op.Hit?
    case Holding(r) => Rooted(queue, head, r.start, r.node) && HDR <= r.size
    case Filling(r, _) => Rooted(queue, head, r.start, r.node) && HDR <= r.size
    case _ => true
  }

  ghost predicate PhaseInv(phase: Phase, queue: seq<Rec>, head: nat) {
    match phase
    case Looking => true
    case Met(e) => queue != [] && !e.state.Migrating?
    case Copied(e, copy) =>
      && |queue| >= 2 && !e.state.Dead? && !e.state.Migrating? && e.refBit.Hot?
      && e.offset == queue[0].start % OFFSET_MODULUS
      && queue[0].start < copy.start && copy.node == queue[0].node && Rooted(queue, head, copy.start, copy.node)
    case Leaving => queue != []
    case Halted => queue != []
  }

  /** Only the collector ends the life of a readable slot. */
  predicate StillReady(s: State) {
    (s.phase.Met? || s.phase.Copied?) && s.phase.expected.state.Ready? &&
    s.queue != [] && s.queue[0].node < |s.cells| ==>
      s.cells[s.queue[0].node].word.state.Ready?
  }

  ghost predicate Inv(s: State) {
    && Ordered(s.queue, s.head) && Within(s.queue, |s.cells|) && PhaseInv(s.phase, s.queue, s.head) && StillReady(s)
    && (forall n :: 0 <= n < |s.cells| ==> CellInv(s.cells[n], n, s.queue, s.head))
    && (forall t :: 0 <= t < |s.threads| ==> ThreadInv(s.threads[t], s.queue, s.head))
  }

  lemma AppendKeepsRooted(queue: seq<Rec>, head: nat, r: Rec, start: nat, n: nat)
    requires Ordered(queue, head) && r.start >= head && r.size >= HDR && Rooted(queue, head, start, n)
    ensures Rooted(queue + [r], r.start + r.size, start, n)
  {
    if TailOf(queue + [r], r.start + r.size) <= start {
      var i :| 0 <= i < |queue| && IsAt(queue[i], start, n);
      assert IsAt((queue + [r])[i], start, n);
    }
  }

  lemma AppendedIsRooted(queue: seq<Rec>, head: nat, r: Rec)
    requires Ordered(queue, head) && r.start == head + Pad(head) && r.size >= HDR
    requires r.start + r.size <= TailOf(queue, head) + SIZE + HDR
    ensures Rooted(queue + [r], r.start + r.size, r.start, r.node)
    ensures Ordered(queue + [r], r.start + r.size)
  {
    assert IsAt((queue + [r])[|queue|], r.start, r.node);
  }

  lemma PassKeepsRooted(queue: seq<Rec>, head: nat, start: nat, n: nat)
    requires Ordered(queue, head) && queue != [] && Rooted(queue, head, start, n)
    ensures Rooted(queue[1..], head, start, n)
  {
    if TailOf(queue[1..], head) <= start {
      var i :| 0 <= i < |queue| && IsAt(queue[i], start, n);
      assert i > 0 && IsAt(queue[1..][i - 1], start, n);
    }
  }

  lemma AppendKeepsInv(s: State, r: Rec)
    requires Inv(s) && r == Next(s, r.node, r.size) && r.size >= HDR && Grants(s, r.size) && r.node < |s.cells|
    ensures Inv(Appended(s, r)) && Tail(Appended(s, r)) >= Tail(s)
    ensures s.queue != [] ==> Tail(Appended(s, r)) == Tail(s)
    ensures Rooted(Appended(s, r).queue, Appended(s, r).head, r.start, r.node)
  {
    hide Rooted;
    var s' := Appended(s, r);
    AppendedIsRooted(s.queue, s.head, r);
    forall n | 0 <= n < |s.cells| ensures CellInv(s.cells[n], n, s'.queue, s'.head) {
      if s.cells[n].word.state.Ready? {
        AppendKeepsRooted(s.queue, s.head, r, s.cells[n].start, n);
      }
    }
    forall t | 0 <= t < |s.threads| ensures ThreadInv(s.threads[t], s'.queue, s'.head) {
      if s.threads[t].Holding? || s.threads[t].Filling? {
        AppendKeepsRooted(s.queue, s.head, r, s.threads[t].rec.start, s.threads[t].rec.node);
      }
    }
    if s.phase.Copied? {
      AppendKeepsRooted(s.queue, s.head, r, s.phase.copy.start, s.phase.copy.node);
    }
  }

  lemma ThreadChangeKeepsInv(s: State, t: nat, th: Thread)
    requires Inv(s) && t < |s.threads| && ThreadInv(th, s.queue, s.head)
    ensures Inv(WithThread(s, t, th))
  {
    hide Rooted, Ordered;
  }

  lemma CellChangeKeepsInv(s: State, n: nat, c: Cell)
    requires Inv(s) && n < |s.cells| && CellInv(c, n, s.queue, s.head)
    requires s.cells[n].word.state.Ready? ==> c.word.state.Ready?
    ensures Inv(s.(cells := s.cells[n := c]))
  {
    hide Rooted, Ordered;
  }

  lemma AllocateKeepsInv(s: State, t: nat, n: nat, length: nat)
    requires Inv(s) && t < |s.threads| && n < |s.cells| && Grants(s, HDR + length)
    ensures var r := Next(s, n, HDR + length); Inv(WithThread(Appended(s, r), t, Holding(r)))
  {
    var r := Next(s, n, HDR + length);
    AppendKeepsInv(s, r);
    hide Inv;
    ThreadChangeKeepsInv(Appended(s, r), t, Holding(r));
  }

  /** Claims, expiries and hits leave a slot what it was, as far as records go. */
  lemma OperationKeepsCell(c: Cell, n: nat, op: L.Op, queue: seq<Rec>, head: nat)
    requires CellInv(c, n, queue, head) && (op.Claim? || op.Expire? || op.Hit?) && L.Desired(op, c.word).Some?
    ensures CellInv(c.(word := L.Desired(op, c.word).value), n, queue, head)
    ensures c.word.state.Ready? <==> L.Desired(op, c.word).value.state.Ready?
  {
  }

  lemma SwapKeepsInv(s: State, t: nat)
    requires Inv(s) && t < |s.threads|
    ensures Inv(ThreadStep(s, Swap(t)))
  {
    var th := s.threads[t];
    assert ThreadInv(th, s.queue, s.head);
    match th {
      case Loaded(op, n, e) =>
        if n < |s.cells| && s.cells[n].word == e && L.Desired(op, e).Some? {
          var c := s.cells[n].(word := L.Desired(op, e).value);
          OperationKeepsCell(s.cells[n], n, op, s.queue, s.head);
          hide Inv;
          CellChangeKeepsInv(s, n, c);
          ThreadChangeKeepsInv(s.(cells := s.cells[n := c]), t, Resting);
        } else {
          ThreadChangeKeepsInv(s, t, Resting);
        }
      case Filling(r, e) =>
        hide Inv;
        if !e.state.Pending? || r.node >= |s.cells| {
          ThreadChangeKeepsInv(s, t, Resting);
        } else if s.cells[r.node].word == e {
          var c := Cell(Packed(Ready, Hot, r.size - HDR, r.start), r.start);
          CellChangeKeepsInv(s, r.node, c);
          ThreadChangeKeepsInv(s.(cells := s.cells[r.node := c]), t, Resting);
        } else {
          ThreadChangeKeepsInv(s, t, Filling(r, s.cells[r.node].word));
        }
      case _ =>
    }
  }

  lemma ThreadStepKeepsInv(s: State, a: Action)
    requires Inv(s) && (a.Load? || a.Allocate? || a.LoadWord? || a.Swap?) && a.t < |s.threads|
    ensures Inv(ThreadStep(s, a))
  {
    var th := s.threads[a.t];
    assert ThreadInv(th, s.queue, s.head);
    hide Inv, Rooted;
    match (a, th) {
      case (Load(t, op, n), Resting) =>
        if n < |s.cells| && (op.Claim? || op.Expire? || op.Hit?) {
          ThreadChangeKeepsInv(s, t, Loaded(op, n, s.cells[n].word));
        }
      case (Allocate(t, n, length), Resting) =>
        if n < |s.cells| && length <= MAX_PAYLOAD_LENGTH && Grants(s, HDR + length) {
          AllocateKeepsInv(s, t, n, length);
        }
      case (LoadWord(t), Holding(r)) =>
        if r.node < |s.cells| {
          ThreadChangeKeepsInv(s, t, Filling(r, s.cells[r.node].word));
        }
      case (Swap(t), _) => SwapKeepsInv(s, t);
      case _ =>
    }
  }

  lemma PhaseChangeKeepsInv(s: State, phase: Phase)
    requires Inv(s) && PhaseInv(phase, s.queue, s.head) && StillReady(s.(phase := phase))
    ensures Inv(s.(phase := phase))
  {
    hide Rooted, Ordered;
  }

  lemma OldCellChangeKeepsInv(s: State, c: Cell)
    requires Inv(s) && s.queue != [] && s.phase.Leaving? && CellInv(c, s.queue[0].node, s.queue, s.head)
    ensures Inv(s.(cells := s.cells[s.queue[0].node := c]))
  {
    hide Rooted, Ordered;
  }

  lemma JudgeKeepsInv(s: State)
    requires Inv(s) && s.queue != [] && s.phase.Met?
    ensures Inv(CollectorStep(s, Judge))
  {
    var r, e := s.queue[0], s.phase.expected;
    assert CellInv(s.cells[r.node], r.node, s.queue, s.head);
    if e.state.Dead? || e.offset != r.start % OFFSET_MODULUS {
      PhaseChangeKeepsInv(s, Leaving);
    } else if e.refBit.Cold? {
      PhaseChangeKeepsInv(s, Leaving);
      hide Inv;
      if s.cells[r.node].word == e {
        OldCellChangeKeepsInv(s.(phase := Leaving), s.cells[r.node].(word := e.(state := Dead)));
      }
    } else if !Grants(s, r.size) {
      PhaseChangeKeepsInv(s, Halted);
    } else {
      var copy := Next(s, r.node, r.size);
      AppendKeepsInv(s, copy);
      assert Appended(s, copy).queue[0] == r;
      PhaseChangeKeepsInv(Appended(s, copy), Copied(e, copy));
    }
  }

  lemma TakeKeepsInv(s: State)
    requires Inv(s) && s.queue != [] && s.phase.Copied?
    ensures Inv(CollectorStep(s, Take))
  {
    var r, e, copy := s.queue[0], s.phase.expected, s.phase.copy;
    PhaseChangeKeepsInv(s, Leaving);
    if s.cells[r.node].word == e {
      OldCellChangeKeepsInv(s.(phase := Leaving),
                            Cell(Packed(e.state, Cold, e.length, copy.start), copy.start));
    }
  }

  lemma CollectorStepKeepsInv(s: State, a: Action)
    requires Inv(s) && s.queue != [] && s.queue[0].node < |s.cells|
    ensures Inv(CollectorStep(s, a))
  {
    match (a, s.phase) {
      case (Meet, Looking) =>
        assert CellInv(s.cells[s.queue[0].node], s.queue[0].node, s.queue, s.head);
        PhaseChangeKeepsInv(s, Met(s.cells[s.queue[0].node].word));
      case (Judge, Met(_)) => JudgeKeepsInv(s);
      case (Take, Copied(_, _)) => TakeKeepsInv(s);
      case (Pass, Leaving) => PassKeepsInv(s);
      case _ =>
    }
  }

  lemma PassKeepsInv(s: State)
    requires Inv(s) && s.queue != [] && s.phase.Leaving?
    ensures Inv(s.(queue := s.queue[1..], phase := Looking)) && Tail(s) <= TailOf(s.queue[1..], s.head)
  {
    var queue := s.queue[1..];
    forall n | 0 <= n < |s.cells| ensures CellInv(s.cells[n], n, queue, s.head) {
      if s.cells[n].word.state.Ready? {
        PassKeepsRooted(s.queue, s.head, s.cells[n].start, n);
      }
    }
    forall t | 0 <= t < |s.threads| ensures ThreadInv(s.threads[t], queue, s.head) {
      if s.threads[t].Holding? || s.threads[t].Filling? {
        PassKeepsRooted(s.queue, s.head, s.threads[t].rec.start, s.threads[t].rec.node);
      }
    }
  }

  lemma ApplyKeepsInv(s: State, a: Action)
    requires Inv(s)
    ensures Inv(Apply(s, a))
  {
    hide Inv, ThreadStep, CollectorStep;
    if a.Load? || a.Allocate? || a.LoadWord? || a.Swap? {
      if a.t < |s.threads| {
        ThreadStepKeepsInv(s, a);
      }
    } else if s.queue != [] && s.queue[0].node < |s.cells| {
      CollectorStepKeepsInv(s, a);
    }
  }

  lemma {:induction false} ScheduleKeepsInv(s: State, actions: seq<Action>)
    requires Init(s)
    ensures Inv(Schedule(s, actions))
  {
    if actions != [] {
      hide Inv, Apply;
      ScheduleKeepsInv(s, actions[..|actions| - 1]);
      ApplyKeepsInv(Schedule(s, actions[..|actions| - 1]), actions[|actions| - 1]);
    }
  }

  // ----- being passed by -----

  /** If slot n is readable, the tail has not given up its record. */
  predicate Ahead(s: State, n: nat)
    requires n < |s.cells|
  {
    s.cells[n].word.state.Ready? ==> Tail(s) <= s.cells[n].start
  }

  predicate NoneBehind(s: State) {
    forall n :: 0 <= n < |s.cells| ==> Ahead(s, n)
  }

  /** The collector, left alone, ends the iteration it is in. */
  function Finish(s: State): State {
    Apply(Apply(Apply(s, Judge), Take), Pass)
  }

  /** No readable slot is behind the tail, nor will be if the collector just carries on. */
  predicate Secure(s: State) {
    NoneBehind(s) && NoneBehind(Finish(s))
  }

  predicate Busy(p: Phase) {
    p.Met? || p.Copied? || p.Leaving?
  }

  /** The collector is about to find the ring exhausted. */
  predicate Halts(s: State) {
    && s.phase.Met? && s.queue != []
    && var e, r := s.phase.expected, s.queue[0];
       !e.state.Dead? && e.offset == r.start % OFFSET_MODULUS && e.refBit.Hot? && !Grants(s, r.size)
  }

  /** The collector has loaded the cold word w of slot n and is going to evict it. */
  predicate AboutToEvict(s: State, n: nat, w: Control) {
    && s.phase == Met(w) && w.refBit.Cold?
    && s.queue != [] && s.queue[0].node == n && s.queue[0].start % OFFSET_MODULUS == w.offset
  }

  /** A SetCache that swaps now comes too late: the collector has dealt with its record already. */
  predicate TooLate(s: State, r: Rec) {
    r.start < Tail(s) || (r.start == Tail(s) && Busy(s.phase) && !Halts(s))
  }

  /** The action is no hit on a word about to be evicted, and no fill that comes too late. */
  predicate Harmless(s: State, a: Action) {
    a.Swap? && a.t < |s.threads| ==>
      match s.threads[a.t]
      case Loaded(op, n, e) =>
        !(op.Hit? && e.state.Ready? && n < |s.cells| && s.cells[n].word == e && AboutToEvict(s, n, e))
      case Filling(r, e) =>
        !(e.state.Pending? && r.node < |s.cells| && r.size >= HDR && s.cells[r.node].word == e && TooLate(s, r))
      case _ => true
  }

  /** What `Secure` means for one slot: its record is ahead of the collector, or the collector takes it along. */
  predicate Kept(s: State, n: nat)
    requires n < |s.cells|
  {
    var c := s.cells[n];
    c.word.state.Ready? ==>
      && Tail(s) <= c.start
      && (c.start == Tail(s) && Busy(s.phase) ==> Halts(s) || (!s.phase.Leaving? && s.phase.expected == c.word))
  }

  /** A record that is still there is the one at the tail, and then no other slot's, or survives the next pass. */
  lemma RootedPlace(queue: seq<Rec>, head: nat, start: nat, n: nat)
    requires Ordered(queue, head) && Rooted(queue, head, start, n) && TailOf(queue, head) <= start
    ensures queue != []
    ensures if start == queue[0].start then n == queue[0].node && start < TailOf(queue[1..], head)
            else TailOf(queue[1..], head) <= start
    ensures start % OFFSET_MODULUS == queue[0].start % OFFSET_MODULUS ==> start == queue[0].start
  {
    var i :| 0 <= i < |queue| && IsAt(queue[i], start, n);
    if start % OFFSET_MODULUS == queue[0].start % OFFSET_MODULUS {
      SameOffset(start, queue[0].start);
    }
  }

  lemma SameOffset(u: nat, v: nat)
    requires v <= u < v + 2 * SIZE && u % OFFSET_MODULUS == v % OFFSET_MODULUS
    ensures u == v
  {
  }

  lemma KeptWhileLeaving(s: State, n: nat)
    requires Inv(s) && n < |s.cells| && s.phase.Leaving?
    ensures |Finish(s).cells| == |s.cells|
    ensures Kept(s, n) <==> Ahead(s, n) && Ahead(Finish(s), n)
  {
    assert CellInv(s.cells[n], n, s.queue, s.head);
    if s.cells[n].word.state.Ready? && Ahead(s, n) {
      RootedPlace(s.queue, s.head, s.cells[n].start, n);
    }
  }

  lemma KeptWhileCopied(s: State, n: nat)
    requires Inv(s) && n < |s.cells| && s.phase.Copied?
    ensures |Finish(s).cells| == |s.cells|
    ensures Kept(s, n) <==> Ahead(s, n) && Ahead(Finish(s), n)
  {
    assert CellInv(s.cells[n], n, s.queue, s.head);
    RootedPlace(s.queue, s.head, s.phase.copy.start, s.phase.copy.node);
    if s.cells[n].word.state.Ready? && Ahead(s, n) {
      RootedPlace(s.queue, s.head, s.cells[n].start, n);
    }
  }

  lemma JudgeKeepsKept(s: State, n: nat)
    requires Inv(s) && n < |s.cells| && s.phase.Met? && Ahead(s, n)
    ensures |Apply(s, Judge).cells| == |s.cells| && Ahead(Apply(s, Judge), n)
    ensures Kept(s, n) <==> Kept(Apply(s, Judge), n)
  {
    assert CellInv(s.cells[n], n, s.queue, s.head);
    if s.cells[n].word.state.Ready? {
      RootedPlace(s.queue, s.head, s.cells[n].start, n);
    }
    hide Rooted, Ordered, Pad;
  }

  lemma FinishAfterJudge(s: State)
    requires Inv(s) && s.phase.Met?
    ensures var r := Apply(s, Judge);
            Inv(r) && (r.phase.Leaving? || r.phase.Copied? || r.phase.Halted?) && Finish(s) == Finish(r) &&
            (r.phase.Halted? ==> Finish(r) == r)
  {
    ApplyKeepsInv(s, Judge);
  }

  lemma KeptIffAhead(s: State, n: nat)
    requires Inv(s) && n < |s.cells|
    ensures |Finish(s).cells| == |s.cells|
    ensures Kept(s, n) <==> Ahead(s, n) && Ahead(Finish(s), n)
  {
    if s.phase.Leaving? {
      KeptWhileLeaving(s, n);
    } else if s.phase.Copied? {
      KeptWhileCopied(s, n);
    } else if s.phase.Met? {
      KeptWhileMet(s, n);
    } else {
      assert Finish(s) == s;
    }
  }

  lemma KeptWhileMet(s: State, n: nat)
    requires Inv(s) && n < |s.cells| && s.phase.Met?
    ensures |Finish(s).cells| == |s.cells|
    ensures Kept(s, n) <==> Ahead(s, n) && Ahead(Finish(s), n)
  {
    var r := Apply(s, Judge);
    FinishAfterJudge(s);
    JudgeKeepsSize(s);
    hide Inv, Apply, Finish;
    if r.phase.Leaving? {
      KeptWhileLeaving(r, n);
    } else if r.phase.Copied? {
      KeptWhileCopied(r, n);
    }
    if Ahead(s, n) {
      JudgeKeepsKept(s, n);
    }
  }

  lemma JudgeKeepsSize(s: State)
    ensures |Apply(s, Judge).cells| == |s.cells|
  {
  }

  ghost predicate AllKept(s: State) {
    forall n :: 0 <= n < |s.cells| ==> Kept(s, n)
  }

  lemma SecureIffKept(s: State)
    requires Inv(s)
    ensures Secure(s) <==> AllKept(s)
  {
    hide Inv, Finish, Kept;
    forall n | 0 <= n < |s.cells|
      ensures |Finish(s).cells| == |s.cells| && (Kept(s, n) <==> Ahead(s, n) && Ahead(Finish(s), n))
    {
      KeptIffAhead(s, n);
    }
    FinishKeepsSize(s);
  }

  lemma FinishKeepsSize(s: State)
    ensures |Finish(s).cells| == |s.cells|
  {
  }

  // ----- one action -----

  /** An action that leaves slot n's word alone keeps its prospects, provided the collector's view stays. */
  lemma AllocateKeepsKept(s: State, r: Rec, n: nat)
    requires Inv(s) && r == Next(s, r.node, r.size) && n < |s.cells| && Kept(s, n)
    ensures Kept(Appended(s, r), n)
  {
    assert CellInv(s.cells[n], n, s.queue, s.head);
    if s.cells[n].word.state.Ready? {
      RootedPlace(s.queue, s.head, s.cells[n].start, n);
    }
  }

  lemma HitKeepsKeptIffHarmless(s: State, n: nat, w: Control)
    requires Inv(s) && n < |s.cells| && Kept(s, n) && s.cells[n].word.state.Ready?
    requires w == s.cells[n].word.(refBit := Hot)
    ensures Kept(s.(cells := s.cells[n := s.cells[n].(word := w)]), n) <==> !AboutToEvict(s, n, s.cells[n].word)
  {
    assert CellInv(s.cells[n], n, s.queue, s.head);
    RootedPlace(s.queue, s.head, s.cells[n].start, n);
  }

  lemma FillKeepsKeptIffInTime(s: State, r: Rec)
    requires Inv(s) && r.node < |s.cells| && s.cells[r.node].word.state.Pending? && r.size >= HDR
    requires Rooted(s.queue, s.head, r.start, r.node)
    ensures var c := Cell(Packed(Ready, Hot, r.size - HDR, r.start), r.start);
            Kept(s.(cells := s.cells[r.node := c]), r.node) <==> !TooLate(s, r)
  {
    if Tail(s) <= r.start {
      RootedPlace(s.queue, s.head, r.start, r.node);
    }
  }

  lemma OneCellDecides(s: State, n: nat, c: Cell)
    requires AllKept(s) && n < |s.cells|
    ensures var s' := s.(cells := s.cells[n := c]); AllKept(s') <==> Kept(s', n)
  {
    var s' := s.(cells := s.cells[n := c]);
    forall m | 0 <= m < |s.cells| && m != n ensures Kept(s', m) {
      assert Kept(s, m);
    }
  }

  lemma ThreadsDoNotMatter(s: State, t: nat, th: Thread)
    requires t < |s.threads|
    ensures AllKept(WithThread(s, t, th)) <==> AllKept(s)
  {
    forall n | 0 <= n < |s.cells| ensures Kept(WithThread(s, t, th), n) <==> Kept(s, n) {
    }
  }

  lemma OperationSwap(s: State, t: nat)
    requires Inv(s) && AllKept(s) && t < |s.threads| && s.threads[t].Loaded?
    ensures AllKept(ThreadStep(s, Swap(t))) <==> Harmless(s, Swap(t))
  {
    var Loaded(op, n, e) := s.threads[t];
    assert ThreadInv(s.threads[t], s.queue, s.head);
    if n < |s.cells| && s.cells[n].word == e && L.Desired(op, e).Some? {
      var c := s.cells[n].(word := L.Desired(op, e).value);
      assert Kept(s, n) && CellInv(s.cells[n], n, s.queue, s.head);
      OneCellDecides(s, n, c);
      ThreadsDoNotMatter(s.(cells := s.cells[n := c]), t, Resting);
      if op.Hit? {
        HitKeepsKeptIffHarmless(s, n, c.word);
      }
    } else {
      ThreadsDoNotMatter(s, t, Resting);
    }
  }

  lemma FillSwap(s: State, t: nat)
    requires Inv(s) && AllKept(s) && t < |s.threads| && s.threads[t].Filling?
    ensures AllKept(ThreadStep(s, Swap(t))) <==> Harmless(s, Swap(t))
  {
    var Filling(r, e) := s.threads[t];
    assert ThreadInv(s.threads[t], s.queue, s.head);
    if !e.state.Pending? || r.node >= |s.cells| {
      ThreadsDoNotMatter(s, t, Resting);
    } else if s.cells[r.node].word == e {
      var c := Cell(Packed(Ready, Hot, r.size - HDR, r.start), r.start);
      FillKeepsKeptIffInTime(s, r);
      OneCellDecides(s, r.node, c);
      ThreadsDoNotMatter(s.(cells := s.cells[r.node := c]), t, Resting);
    } else {
      ThreadsDoNotMatter(s, t, Filling(r, s.cells[r.node].word));
    }
  }

  lemma ThreadStepKeepsKeptIffHarmless(s: State, a: Action)
    requires Inv(s) && AllKept(s) && (a.Load? || a.Allocate? || a.LoadWord? || a.Swap?) && a.t < |s.threads|
    ensures AllKept(ThreadStep(s, a)) <==> Harmless(s, a)
  {
    hide Inv, AllKept;
    match (a, s.threads[a.t]) {
      case (Load(t, op, n), Resting) =>
        if n < |s.cells| && (op.Claim? || op.Expire? || op.Hit?) {
          ThreadsDoNotMatter(s, t, Loaded(op, n, s.cells[n].word));
        }
      case (Allocate(t, n, length), Resting) =>
        if n < |s.cells| && length <= MAX_PAYLOAD_LENGTH && Grants(s, HDR + length) {
          AppendKeepsAllKept(s, Next(s, n, HDR + length));
          ThreadsDoNotMatter(Appended(s, Next(s, n, HDR + length)), t, Holding(Next(s, n, HDR + length)));
        }
      case (LoadWord(t), Holding(r)) =>
        if r.node < |s.cells| {
          ThreadsDoNotMatter(s, t, Filling(r, s.cells[r.node].word));
        }
      case (Swap(t), Loaded(_, _, _)) => OperationSwap(s, t);
      case (Swap(t), Filling(_, _)) => FillSwap(s, t);
      case _ =>
    }
  }

  lemma AppendKeepsAllKept(s: State, r: Rec)
    requires Inv(s) && r == Next(s, r.node, r.size) && AllKept(s)
    ensures AllKept(Appended(s, r))
  {
    forall n | 0 <= n < |s.cells| ensures Kept(Appended(s, r), n) {
      AllocateKeepsKept(s, r, n);
    }
  }

  lemma CollectorStepKeepsKept(s: State, a: Action, n: nat)
    requires Inv(s) && s.queue != [] && s.queue[0].node < |s.cells| && n < |s.cells| && Kept(s, n)
    requires a.Meet? || a.Judge? || a.Take? || a.Pass?
    ensures |CollectorStep(s, a).cells| == |s.cells| && Kept(CollectorStep(s, a), n)
  {
    assert CellInv(s.cells[n], n, s.queue, s.head);
    if s.cells[n].word.state.Ready? {
      RootedPlace(s.queue, s.head, s.cells[n].start, n);
    }
    if s.phase.Copied? {
      RootedPlace(s.queue, s.head, s.phase.copy.start, s.phase.copy.node);
    }
    hide Rooted, Ordered, Pad;
  }

  lemma CollectorStepKeepsAllKept(s: State, a: Action)
    requires Inv(s) && s.queue != [] && s.queue[0].node < |s.cells| && AllKept(s)
    requires a.Meet? || a.Judge? || a.Take? || a.Pass?
    ensures AllKept(CollectorStep(s, a))
  {
    hide Inv, Kept;
    forall n | 0 <= n < |CollectorStep(s, a).cells| ensures Kept(CollectorStep(s, a), n) {
      CollectorKeepsSize(s, a);
      CollectorStepKeepsKept(s, a, n);
    }
  }

  lemma CollectorKeepsSize(s: State, a: Action)
    requires s.queue != [] && s.queue[0].node < |s.cells|
    ensures |CollectorStep(s, a).cells| == |s.cells|
  {
  }

  /** A step keeps every readable slot secure if and only if it is harmless. */
  lemma ApplyKeepsSecureIffHarmless(s: State, a: Action)
    requires Inv(s) && Secure(s)
    ensures Secure(Apply(s, a)) <==> Harmless(s, a)
  {
    hide Inv, Secure, AllKept, Kept, ThreadStep, CollectorStep;
    ApplyKeepsInv(s, a);
    SecureIffKept(s);
    SecureIffKept(Apply(s, a));
    if a.Load? || a.Allocate? || a.LoadWord? || a.Swap? {
      if a.t < |s.threads| {
        ThreadStepKeepsKeptIffHarmless(s, a);
      }
    } else if s.queue != [] && s.queue[0].node < |s.cells| {
      CollectorStepKeepsAllKept(s, a);
    }
  }

  // ----- whole schedules -----

  predicate AllHarmless(s: State, actions: seq<Action>) {
    actions == [] ||
    var n := |actions| - 1;
    AllHarmless(s, actions[..n]) && Harmless(Schedule(s, actions[..n]), actions[n])
  }

  ghost predicate AlwaysSecure(s: State, actions: seq<Action>) {
    forall k :: 0 <= k <= |actions| ==> Secure(Schedule(s, actions[..k]))
  }

  lemma AlwaysOneMore(s: State, actions: seq<Action>)
    requires actions != []
    ensures AlwaysSecure(s, actions) <==>
            AlwaysSecure(s, actions[..|actions| - 1]) && Secure(Schedule(s, actions))
  {
    hide Secure, Schedule;
    var before := actions[..|actions| - 1];
    assert forall k :: 0 <= k < |actions| ==> before[..k] == actions[..k];
    assert actions[..|actions|] == actions;
  }

  lemma AlwaysMeansNow(s: State, actions: seq<Action>)
    requires AlwaysSecure(s, actions)
    ensures Secure(Schedule(s, actions))
  {
    hide Secure, Schedule;
    assert actions[..|actions|] == actions;
  }

  lemma StartIsSecure(s: State)
    requires Init(s)
    ensures Secure(s)
  {
  }

  /**
    For every schedule of any number of threads: at no time is a readable slot behind the tail, nor
    bound to be left there, if and only if no hit changes a word that the collector has loaded to
    evict it, and no SetCache swaps after the collector has dealt with its record.
   */
  lemma {:induction false} SecureIffHarmless(s: State, actions: seq<Action>)
    requires Init(s)
    ensures AllHarmless(s, actions) <==> AlwaysSecure(s, actions)
  {
    if actions == [] {
      assert actions[..0] == [] && Schedule(s, []) == s;
      StartIsSecure(s);
    } else {
      hide Secure, Inv, Apply, Init, Harmless, AlwaysSecure;
      var n := |actions| - 1;
      var r := Schedule(s, actions[..n]);
      SecureIffHarmless(s, actions[..n]);
      AlwaysOneMore(s, actions);
      ScheduleKeepsInv(s, actions[..n]);
      if AlwaysSecure(s, actions[..n]) {
        AlwaysMeansNow(s, actions[..n]);
        ApplyKeepsSecureIffHarmless(r, actions[n]);
      }
    }
  }
}
