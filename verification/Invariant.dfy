/**
  What every atomic step keeps. The history variable is the queue of records that have been
  allocated and not yet reclaimed, oldest first. Lemmas that only put others together hide the
  invariant, so that their proofs need not look inside it.
 */
module Invariant {
  import opened Node
  import opened Ring
  import opened ArenaModel

  datatype Record = Record(start: nat, node: nat, payload: seq<Byte>)

  function End(r: Record): nat {
    r.start + HDR + |r.payload|
  }

  /** Record i starts where its predecessor ends, or at the border if its header would straddle. */
  ghost predicate Abuts(q: seq<Record>, i: nat)
    requires 0 < i < |q|
  {
    q[i].start == End(q[i - 1]) + Pad(End(q[i - 1]))
  }

  /** The window [tail, head) is tiled by the queue, with padding only where a header would straddle. */
  ghost predicate Tiled(q: seq<Record>, tail: nat, head: nat) {
    && (q == [] ==> tail == head)
    && (q != [] ==> q[0].start == tail + Pad(tail) && End(q[|q| - 1]) == head)
    && (forall i :: 0 < i < |q| ==> Abuts(q, i))
  }

  ghost predicate Ordered(q: seq<Record>, tail: nat, head: nat) {
    && (forall i :: 0 <= i < |q| ==> tail <= q[i].start && End(q[i]) <= head)
    && (forall i, j :: 0 <= i < j < |q| ==> End(q[i]) <= q[j].start)
  }

  ghost predicate Stored(mem: Memory, r: Record) {
    && r.node < TOTAL_MAX_SLOTS && |r.payload| <= MAX_PAYLOAD_LENGTH
    && r.start % SIZE + HDR <= SIZE
    && Slice(mem, r.start, HDR + |r.payload|) == RecordBytes(r.node, r.payload)
  }

  ghost predicate Owns(q: seq<Record>, i: int, n: nat, c: Control) {
    && 0 <= i < |q|
    && q[i].node == n && c.offset == q[i].start % OFFSET_MODULUS && c.length == |q[i].payload|
  }

  ghost predicate Inv(a: Arena, q: seq<Record>) {
    && a.tail <= a.head <= a.tail + SIZE
    && Tiled(q, a.tail, a.head)
    && Ordered(q, a.tail, a.head)
    && (forall i {:trigger Stored(a.mem, q[i])} :: 0 <= i < |q| ==> Stored(a.mem, q[i]))
    && (forall n :: 0 <= n < TOTAL_MAX_SLOTS ==> !a.nodes[n].control.state.Migrating?)
    && (forall n :: 0 <= n < TOTAL_MAX_SLOTS && a.nodes[n].control.state.Ready? ==>
         exists i :: Owns(q, i, n, a.nodes[n].control))
  }

  lemma InitialInv()
    ensures Inv(Initial(), [])
  {
  }

  lemma WindowIsOrdered(a: Arena, q: seq<Record>)
    requires Inv(a, q)
    ensures a.tail <= a.head <= a.tail + SIZE
  {
  }

  // ----- appending a record -----

  /** The new record fits in front of the tail once its padding is counted. */
  predicate Fits(head: nat, tail: nat, length: nat) {
    head + Pad(head) + HDR + length <= tail + SIZE
  }

  lemma StoredSurvivesPut(mem: Memory, r: Record, v: nat, bytes: seq<Byte>)
    requires Stored(mem, r) && |bytes| <= SIZE
    requires End(r) <= v && v + |bytes| <= r.start + SIZE
    ensures Stored(Put(mem, v, bytes), r)
  {
    PutFrame(mem, v, bytes, r.start, HDR + |r.payload|);
  }

  lemma TilingExtended(q: seq<Record>, tail: nat, head: nat, r: Record)
    requires Tiled(q, tail, head) && Ordered(q, tail, head) && tail <= head
    requires r.start == head + Pad(head)
    ensures Tiled(q + [r], tail, End(r)) && Ordered(q + [r], tail, End(r))
  {
    forall i | 0 < i < |q + [r]| ensures Abuts(q + [r], i) {
      assert i < |q| ==> Abuts(q, i);
    }
  }

  lemma StoredExtended(mem: Memory, q: seq<Record>, r: Record, tail: nat, head: nat)
    requires Ordered(q, tail, head) && head <= r.start && End(r) <= tail + SIZE
    requires r.node < TOTAL_MAX_SLOTS && |r.payload| <= MAX_PAYLOAD_LENGTH && r.start % SIZE + HDR <= SIZE
    requires forall i {:trigger Stored(mem, q[i])} :: 0 <= i < |q| ==> Stored(mem, q[i])
    ensures forall i :: 0 <= i < |q + [r]| ==> Stored(Put(mem, r.start, RecordBytes(r.node, r.payload)), (q + [r])[i])
  {
    var bytes := RecordBytes(r.node, r.payload);
    forall i | 0 <= i < |q + [r]| ensures Stored(Put(mem, r.start, bytes), (q + [r])[i]) {
      if i < |q| {
        StoredSurvivesPut(mem, q[i], r.start, bytes);
      } else {
        PutThenSlice(mem, r.start, bytes);
      }
    }
  }

  lemma AppendKeepsInv(a: Arena, q: seq<Record>, r: Record)
    requires Inv(a, q) && r.node < TOTAL_MAX_SLOTS && |r.payload| <= MAX_PAYLOAD_LENGTH
    requires r.start == a.head + Pad(a.head) && Fits(a.head, a.tail, |r.payload|)
    ensures Inv(Append(a, r.start, r.node, r.payload), q + [r])
  {
    TilingExtended(q, a.tail, a.head, r);
    StoredExtended(a.mem, q, r, a.tail, a.head);
    OwnersKeepTheirRecords(a.nodes, q, r);
  }

  lemma OwnersKeepTheirRecords(nodes: Table, q: seq<Record>, r: Record)
    requires forall n :: 0 <= n < TOTAL_MAX_SLOTS && nodes[n].control.state.Ready? ==>
               exists i :: Owns(q, i, n, nodes[n].control)
    ensures forall n :: 0 <= n < TOTAL_MAX_SLOTS && nodes[n].control.state.Ready? ==>
              exists i :: Owns(q + [r], i, n, nodes[n].control)
  {
    forall n | 0 <= n < TOTAL_MAX_SLOTS && nodes[n].control.state.Ready?
      ensures exists i :: Owns(q + [r], i, n, nodes[n].control)
    {
      var i :| Owns(q, i, n, nodes[n].control);
      assert Owns(q + [r], i, n, nodes[n].control);
    }
  }

  // ----- slots -----

  lemma SlotChangeKeepsInv(a: Arena, q: seq<Record>, n: nat, m: MetaNode)
    requires Inv(a, q) && n < TOTAL_MAX_SLOTS
    requires !m.control.state.Migrating?
    requires m.control.state.Ready? ==> exists i :: Owns(q, i, n, m.control)
    ensures Inv(a.(nodes := a.nodes[n := m]), q)
  {
  }

  /** The masked comparison of the collector is exact: it recognises owners and nobody else. */
  lemma OwnerAtTail(a: Arena, q: seq<Record>, n: nat)
    requires Inv(a, q) && q != [] && q[0].start == a.tail
    requires n < TOTAL_MAX_SLOTS && a.nodes[n].control.state.Ready?
    ensures a.nodes[n].control.offset == a.tail % OFFSET_MODULUS <==> Owns(q, 0, n, a.nodes[n].control)
  {
    var i :| Owns(q, i, n, a.nodes[n].control);
    if a.nodes[n].control.offset == a.tail % OFFSET_MODULUS {
      MaskedInjective(q[i].start, a.tail, a.tail);
      assert i == 0;
    }
  }

  /** No record has two claimants, and no slot owns two records. */
  lemma OwnershipIsExclusive(a: Arena, q: seq<Record>, m: nat, n: nat, i: nat, j: nat)
    requires Inv(a, q) && m < TOTAL_MAX_SLOTS && n < TOTAL_MAX_SLOTS
    requires Owns(q, i, m, a.nodes[m].control) && Owns(q, j, n, a.nodes[n].control)
    ensures m == n <==> i == j
    ensures m != n ==> End(q[i]) <= q[j].start || End(q[j]) <= q[i].start
  {
    if m == n {
      MaskedInjective(q[i].start, q[j].start, a.tail);
    }
  }

  /** A slot takes over the record just appended for it. */
  lemma TakeNewRecord(a: Arena, q: seq<Record>, r: Record, m: MetaNode)
    requires Inv(a, q) && r.node < TOTAL_MAX_SLOTS && |r.payload| <= MAX_PAYLOAD_LENGTH
    requires r.start == a.head + Pad(a.head) && Fits(a.head, a.tail, |r.payload|)
    requires !m.control.state.Migrating?
    requires m.control.state.Ready? ==>
               m.control.offset == r.start % OFFSET_MODULUS && m.control.length == |r.payload|
    ensures Inv(Append(a, r.start, r.node, r.payload).(nodes := a.nodes[r.node := m]), q + [r])
  {
    AppendKeepsInv(a, q, r);
    assert m.control.state.Ready? ==> Owns(q + [r], |q|, r.node, m.control);
    SlotChangeKeepsInv(Append(a, r.start, r.node, r.payload), q + [r], r.node, m);
  }

  // ----- the collector -----

  /** The bytes at the tail are the header of the oldest record, and its payload follows. */
  lemma TailHeader(a: Arena, q: seq<Record>)
    requires Inv(a, q) && q != [] && Pad(a.tail) == 0
    ensures q[0].start == a.tail && a.tail % SIZE + HDR <= SIZE
    ensures q[0].node < TOTAL_MAX_SLOTS && |q[0].payload| <= MAX_PAYLOAD_LENGTH
    ensures HeaderAt(a.mem, a.tail % SIZE) == PayloadHeader(VALID_IDENTIFIER, q[0].node, |q[0].payload|)
    ensures Slice(a.mem, a.tail + HDR, |q[0].payload|) == q[0].payload
  {
    var r := q[0];
    assert Stored(a.mem, r);
    var n := HDR + |r.payload|;
    SubSlice(a.mem, r.start, n, 0, HDR);
    assert RecordBytes(r.node, r.payload)[0..HDR] == HeaderBytes(PayloadHeader(VALID_IDENTIFIER, r.node, |r.payload|));
    HeaderRoundTrip(a.mem, r.start, PayloadHeader(VALID_IDENTIFIER, r.node, |r.payload|));
    SubSlice(a.mem, r.start, n, HDR, n);
    assert RecordBytes(r.node, r.payload)[HDR..n] == r.payload;
  }

  lemma TilingShortened(q: seq<Record>, tail: nat, head: nat)
    requires q != [] && Tiled(q, tail, head) && Ordered(q, tail, head)
    ensures Tiled(q[1..], End(q[0]), head) && Ordered(q[1..], End(q[0]), head)
    ensures tail <= End(q[0]) <= head
  {
    forall i | 0 < i < |q[1..]| ensures Abuts(q[1..], i) {
      assert Abuts(q, i + 1);
    }
    assert 1 < |q| ==> Abuts(q, 1);
  }

  lemma OthersKeepTheirRecords(a: Arena, q: seq<Record>)
    requires Inv(a, q) && q != []
    requires forall n :: 0 <= n < TOTAL_MAX_SLOTS && a.nodes[n].control.state.Ready? ==>
               !Owns(q, 0, n, a.nodes[n].control)
    ensures forall n :: 0 <= n < TOTAL_MAX_SLOTS && a.nodes[n].control.state.Ready? ==>
              exists i :: Owns(q[1..], i, n, a.nodes[n].control)
  {
    forall n | 0 <= n < TOTAL_MAX_SLOTS && a.nodes[n].control.state.Ready?
      ensures exists i :: Owns(q[1..], i, n, a.nodes[n].control)
    {
      var i :| Owns(q, i, n, a.nodes[n].control);
      assert Owns(q[1..], i - 1, n, a.nodes[n].control);
    }
  }

  lemma DropKeepsInv(a: Arena, q: seq<Record>)
    requires Inv(a, q) && q != [] && q[0].start == a.tail
    requires forall n :: 0 <= n < TOTAL_MAX_SLOTS && a.nodes[n].control.state.Ready? ==>
               !Owns(q, 0, n, a.nodes[n].control)
    ensures Inv(a.(tail := End(q[0])), q[1..])
  {
    OthersKeepTheirRecords(a, q);
    TilingShortened(q, a.tail, a.head);
    forall i | 0 <= i < |q[1..]| ensures Stored(a.mem, q[1..][i]) {
      assert Stored(a.mem, q[i + 1]);
    }
  }

  /** The history variable, moved along with the collector. */
  ghost function QueueAfter(q: seq<Record>, o: Outcome): seq<Record> {
    if q == [] then []
    else
      match o
      case Skipped => q[1..]
      case Evicted(_) => q[1..]
      case Rescued(n, offset) => q[1..] + [Record(offset, n, q[0].payload)]
      case _ => q
  }

  /**
    Under the invariant the collector only ever stops at the record at the head of the queue:
    it never meets bytes that are no header, nor a header that the arena did not write.
   */
  lemma CollectorSeesTheQueue(a: Arena, q: seq<Record>)
    requires Inv(a, q)
    ensures !Collect(a).1.BadHeader? && !Collect(a).1.ForeignHeader?
    ensures !Collect(a).1.Idle? ==> q != []
    ensures Collect(a).1.Leapt? ==> Collect(a).0.tail == q[0].start
    ensures !Collect(a).1.Idle? && !Collect(a).1.Leapt? ==>
              q != [] && a.tail == q[0].start && Pad(a.tail) == 0 &&
              q[0].node < TOTAL_MAX_SLOTS && |q[0].payload| <= MAX_PAYLOAD_LENGTH &&
              HeaderAt(a.mem, a.tail % SIZE) == PayloadHeader(VALID_IDENTIFIER, q[0].node, |q[0].payload|) &&
              Slice(a.mem, a.tail + HDR, |q[0].payload|) == q[0].payload
  {
    if q != [] && Pad(a.tail) == 0 {
      TailHeader(a, q);
    }
  }

  lemma LeapKeepsInv(a: Arena, q: seq<Record>)
    requires Inv(a, q) && Collect(a).1.Leapt?
    ensures Inv(Collect(a).0, q)
  {
    CollectorSeesTheQueue(a, q);
    assert Pad(q[0].start) == 0;
  }

  lemma SkipKeepsInv(a: Arena, q: seq<Record>)
    requires Inv(a, q) && Collect(a).1.Skipped?
    ensures q != [] && Inv(Collect(a).0, q[1..])
  {
    CollectorSeesTheQueue(a, q);
    forall n | 0 <= n < TOTAL_MAX_SLOTS && a.nodes[n].control.state.Ready?
      ensures !Owns(q, 0, n, a.nodes[n].control)
    {
      OwnerAtTail(a, q, n);
    }
    DropKeepsInv(a, q);
  }

  /** A slot that gives up its claim frees the oldest record for reclaiming. */
  lemma ReleaseKeepsInv(a: Arena, q: seq<Record>, m: MetaNode)
    requires Inv(a, q) && q != [] && q[0].start == a.tail && m.control.state.Dead?
    ensures q[0].node < TOTAL_MAX_SLOTS
    ensures Inv(a.(tail := End(q[0]), nodes := a.nodes[q[0].node := m]), q[1..])
  {
    assert Stored(a.mem, q[0]);
    SlotChangeKeepsInv(a, q, q[0].node, m);
    DropKeepsInv(a.(nodes := a.nodes[q[0].node := m]), q);
  }

  /** What a slot that owns the oldest record, or none, looks like after moving to `offset`. */
  function Moved(m: MetaNode, offset: nat): MetaNode {
    m.(control := Packed(m.control.state, Cold, m.control.length, offset))
  }

  lemma MovedFitsCopy(a: Arena, q: seq<Record>, offset: nat)
    requires Inv(a, q) && q != [] && q[0].start == a.tail && q[0].node < TOTAL_MAX_SLOTS
    requires a.nodes[q[0].node].control.offset == a.tail % OFFSET_MODULUS
    requires |q[0].payload| <= MAX_PAYLOAD_LENGTH
    ensures var c := Moved(a.nodes[q[0].node], offset).control;
            !c.state.Migrating? &&
            (c.state.Ready? ==> c.offset == offset % OFFSET_MODULUS && c.length == |q[0].payload|)
  {
    if a.nodes[q[0].node].control.state.Ready? {
      OwnerAtTail(a, q, q[0].node);
    }
  }

  /** Rescue is release, append, and claiming the copy. */
  lemma RelocateKeepsInv(a: Arena, q: seq<Record>, r: Record)
    requires Inv(a, q) && q != [] && q[0].start == a.tail
    requires r.node == q[0].node < TOTAL_MAX_SLOTS && r.payload == q[0].payload
    requires |r.payload| <= MAX_PAYLOAD_LENGTH
    requires a.nodes[r.node].control.offset == a.tail % OFFSET_MODULUS
    requires r.start == a.head + Pad(a.head) && Fits(a.head, End(q[0]), |r.payload|)
    ensures Inv(Append(a, r.start, r.node, r.payload).(
                  tail := End(q[0]), nodes := a.nodes[r.node := Moved(a.nodes[r.node], r.start)]), q[1..] + [r])
  {
    var dead := MetaNode(0, Control(Dead, Cold, 0, 0));
    var moved := Moved(a.nodes[r.node], r.start);
    var freed := a.(tail := End(q[0]), nodes := a.nodes[r.node := dead]);
    assert Inv(freed, q[1..]) by {
      ReleaseKeepsInv(a, q, dead);
    }
    MovedFitsCopy(a, q, r.start);
    TakeNewRecord(freed, q[1..], r, moved);
    assert freed.nodes[r.node := moved] == a.nodes[r.node := moved];
  }

  /** Read off the collector's last branch: the copy carries the node, length and bytes of the original. */
  lemma RescueCopiesTheOldest(a: Arena, q: seq<Record>)
    requires Inv(a, q) && Collect(a).1.Rescued?
    ensures q != [] && q[0].start == a.tail && q[0].node < TOTAL_MAX_SLOTS
    ensures |q[0].payload| <= MAX_PAYLOAD_LENGTH
    ensures a.nodes[q[0].node].control.offset == a.tail % OFFSET_MODULUS
    ensures var o, n := Collect(a).1.offset, q[0].node;
            Collect(a).1 == Rescued(n, o) &&
            o == a.head + Pad(a.head) && a.head + HDR + |q[0].payload| - a.tail < SIZE &&
            Fits(a.head, End(q[0]), |q[0].payload|) &&
            Collect(a).0 == Append(a, o, n, q[0].payload).(
                              tail := End(q[0]), nodes := a.nodes[n := Moved(a.nodes[n], o)])
  {
    hide Inv, Put, Slice, RecordBytes, HeaderAt;
    WindowIsOrdered(a, q);
    CollectorSeesTheQueue(a, q);
  }

  lemma RescueKeepsInv(a: Arena, q: seq<Record>)
    requires Inv(a, q) && Collect(a).1.Rescued?
    ensures q != [] && Inv(Collect(a).0, QueueAfter(q, Collect(a).1))
  {
    hide Inv;
    RescueCopiesTheOldest(a, q);
    var r := Record(Collect(a).1.offset, q[0].node, q[0].payload);
    RelocateKeepsInv(a, q, r);
  }

  lemma CollectKeepsInv(a: Arena, q: seq<Record>)
    requires Inv(a, q)
    ensures Inv(Collect(a).0, QueueAfter(q, Collect(a).1))
  {
    hide Inv;
    CollectorSeesTheQueue(a, q);
    if Collect(a).1.Leapt? {
      LeapKeepsInv(a, q);
    } else if Collect(a).1.Skipped? {
      SkipKeepsInv(a, q);
    } else if Collect(a).1.Evicted? {
      EvictKeepsInv(a, q);
    } else if Collect(a).1.Rescued? {
      RescueKeepsInv(a, q);
    } else {
      assert Collect(a).0 == a;
    }
  }

  lemma EvictKeepsInv(a: Arena, q: seq<Record>)
    requires Inv(a, q) && Collect(a).1.Evicted?
    ensures q != [] && Inv(Collect(a).0, q[1..])
  {
    hide Inv;
    CollectorSeesTheQueue(a, q);
    ReleaseKeepsInv(a, q, MetaNode(0, a.nodes[q[0].node].control.(state := Dead)));
  }

  // ----- the service -----

  /** A SetCache that is not granted changes nothing; one that is keeps the invariant if and only if it fits. */
  lemma SetCacheKeepsInv(a: Arena, q: seq<Record>, node: int, payload: seq<Byte>)
    requires Inv(a, q) && node < TOTAL_MAX_SLOTS
    ensures var (a', status) := SetCache(a, node, payload);
            if status.Ok?
            then Inv(a', q + [Record(a.head + Pad(a.head), node, payload)]) <==> Fits(a.head, a.tail, |payload|)
            else a' == a
  {
    hide Inv;
    if SetCache(a, node, payload).1.Ok? {
      var r := Record(a.head + Pad(a.head), node, payload);
      if !Fits(a.head, a.tail, |payload|) {
        TooLongForInv(SetCache(a, node, payload).0, q + [r]);
      } else if a.nodes[node].control.state.Pending? {
        TakeNewRecord(a, q, r, a.nodes[node].(control := Packed(Ready, Hot, |payload|, r.start)));
      } else {
        AppendKeepsInv(a, q, r);
      }
    }
  }

  lemma TooLongForInv(a: Arena, q: seq<Record>)
    requires a.head > a.tail + SIZE
    ensures !Inv(a, q)
  {
  }

  // ----- any step -----

  /** The queue of allocated records after a step. */
  ghost function NextQueue(a: Arena, q: seq<Record>, e: Event): seq<Record>
    requires InTable(e)
  {
    match e
    case DoSet(n, payload) =>
      if SetCache(a, n, payload).1.Ok? then q + [Record(a.head + Pad(a.head), n, payload)] else q
    case DoCollect => QueueAfter(q, Collect(a).1)
    case _ => q
  }

  /** Only a SetCache can overshoot the window: a rescue reclaims what it would overshoot into. */
  predicate StepFits(a: Arena, e: Event)
    requires InTable(e)
  {
    e.DoSet? && SetCache(a, e.target, e.payload).1.Ok? ==> Fits(a.head, a.tail, |e.payload|)
  }

  lemma HitKeepsInv(a: Arena, q: seq<Record>, n: nat)
    requires Inv(a, q) && n < TOTAL_MAX_SLOTS
    ensures Inv(Hit(a, n), q)
  {
    var m := a.nodes[n];
    if m.control.state.Ready? {
      var i :| Owns(q, i, n, m.control);
      assert Owns(q, i, n, m.control.(refBit := Hot));
      SlotChangeKeepsInv(a, q, n, m.(control := m.control.(refBit := Hot)));
    }
  }

  lemma SlotStepKeepsInv(a: Arena, q: seq<Record>, e: Event)
    requires Inv(a, q) && InTable(e) && !e.DoSet? && !e.DoCollect?
    ensures Inv(Step(a, e).0, NextQueue(a, q, e))
  {
    match e
    case DoClaim(n, now) => SlotChangeKeepsInv(a, q, n, MetaNode(now, Packed(Pending, Hot, 0, 0)));
    case DoExpire(n) => SlotChangeKeepsInv(a, q, n, MetaNode(0, a.nodes[n].control.(state := Dead)));
    case DoHit(n) => HitKeepsInv(a, q, n);
  }

  lemma SetStepKeepsInv(a: Arena, q: seq<Record>, e: Event)
    requires Inv(a, q) && InTable(e) && e.DoSet?
    ensures Inv(Step(a, e).0, NextQueue(a, q, e)) <==> StepFits(a, e)
  {
    hide Inv;
    SetCacheKeepsInv(a, q, e.target, e.payload);
  }

  lemma CollectStepKeepsInv(a: Arena, q: seq<Record>, e: Event)
    requires Inv(a, q) && e.DoCollect?
    ensures Inv(Step(a, e).0, NextQueue(a, q, e))
  {
    hide Inv;
    CollectKeepsInv(a, q);
  }

  /** Whatever the state, a step keeps the invariant if and only if it is no SetCache that overshoots. */
  lemma StepKeepsInv(a: Arena, q: seq<Record>, e: Event)
    requires Inv(a, q) && InTable(e)
    ensures Inv(Step(a, e).0, NextQueue(a, q, e)) <==> StepFits(a, e)
  {
    hide Inv;
    if e.DoSet? {
      SetStepKeepsInv(a, q, e);
    } else if e.DoCollect? {
      CollectStepKeepsInv(a, q, e);
    } else {
      SlotStepKeepsInv(a, q, e);
    }
  }

  // ----- after an overshoot -----

  predicate NoMigrating(a: Arena) {
    forall n: nat :: n < TOTAL_MAX_SLOTS ==> !a.nodes[n].control.state.Migrating?
  }

  /** No more has been handed out than the buffer holds. */
  predicate SpanFits(a: Arena) {
    a.head <= a.tail + SIZE
  }

  /**
    What holds until the collector runs on a window longer than the buffer: the invariant, or,
    once a SetCache has overshot, a ring that refuses every further allocation.
   */
  ghost predicate Sound(a: Arena, q: seq<Record>) {
    if SpanFits(a) then Inv(a, q) else a.head <= a.tail + SIZE + HDR && NoMigrating(a)
  }

  lemma SoundMeansInv(a: Arena, q: seq<Record>)
    ensures Sound(a, q) && SpanFits(a) <==> Inv(a, q)
  {
  }

  lemma NoneMigrating(a: Arena, q: seq<Record>)
    requires Sound(a, q)
    ensures NoMigrating(a)
  {
  }

  lemma OvershotRefuses(a: Arena, length: nat)
    requires !SpanFits(a) && a.head <= a.tail + SIZE + HDR && length <= MAX_PAYLOAD_LENGTH
    ensures Allocate(a.head, a.tail, length).Exhausted?
  {
  }

  lemma GrantedSpan(a: Arena, node: int, payload: seq<Byte>)
    requires a.tail <= a.head <= a.tail + SIZE && node < TOTAL_MAX_SLOTS && NoMigrating(a)
    requires SetCache(a, node, payload).1.Ok?
    ensures SetCache(a, node, payload).0.head <= a.tail + SIZE + HDR && NoMigrating(SetCache(a, node, payload).0)
  {
  }

  lemma SlotStepKeepsWindow(a: Arena, e: Event)
    requires InTable(e) && !e.DoSet? && !e.DoCollect?
    ensures var a' := Step(a, e).0;
            a'.head == a.head && a'.tail == a.tail && a'.mem == a.mem && (NoMigrating(a) ==> NoMigrating(a'))
  {
  }

  /** Every step keeps `Sound`, if only the collector does not run on an overshot window. */
  lemma StepKeepsSound(a: Arena, q: seq<Record>, e: Event)
    requires Sound(a, q) && InTable(e) && (e.DoCollect? ==> SpanFits(a))
    ensures Sound(Step(a, e).0, NextQueue(a, q, e))
  {
    hide Inv, Sound, NoMigrating, SpanFits, Collect;
    SoundMeansInv(a, q);
    SoundMeansInv(Step(a, e).0, NextQueue(a, q, e));
    if SpanFits(a) {
      StepKeepsInv(a, q, e);
      if !StepFits(a, e) {
        OvershootIsSound(a, q, e);
      }
    } else {
      OvershotStaysOvershot(a, q, e);
    }
  }

  lemma OvershootIsSound(a: Arena, q: seq<Record>, e: Event)
    requires Inv(a, q) && InTable(e) && !StepFits(a, e)
    ensures Sound(Step(a, e).0, NextQueue(a, q, e)) && !SpanFits(Step(a, e).0)
  {
    hide Inv;
    WindowIsOrdered(a, q);
    SoundMeansInv(a, q);
    NoneMigrating(a, q);
    GrantedSpan(a, e.target, e.payload);
  }

  lemma OvershotStaysOvershot(a: Arena, q: seq<Record>, e: Event)
    requires Sound(a, q) && !SpanFits(a) && InTable(e) && !e.DoCollect?
    ensures Sound(Step(a, e).0, NextQueue(a, q, e)) && !SpanFits(Step(a, e).0)
    ensures NextQueue(a, q, e) == q
    ensures e.DoSet? ==> Step(a, e).0 == a && !SetCache(a, e.target, e.payload).1.Ok?
  {
    hide Inv, NoMigrating;
    if e.DoSet? {
      if |e.payload| <= MAX_PAYLOAD_LENGTH {
        OvershotRefuses(a, |e.payload|);
      }
    } else {
      SlotStepKeepsWindow(a, e);
    }
  }
}
