/**
  Ring plus control words implement a map from node to payload: every atomic step is a step
  of that map, and over every run a hit returns the bytes of the SetCache that filled the slot.
 */
module Refinement {
  import opened Node
  import opened Ring
  import opened ArenaModel
  import opened Invariant

  type Cache = map<nat, seq<Byte>>

  predicate IsReady(a: Arena, n: nat) {
    n < TOTAL_MAX_SLOTS && a.nodes[n].control.state.Ready?
  }

  /** The map that the arena stands for, read from its bytes. */
  function Contents(a: Arena): Cache {
    map n: nat | n < TOTAL_MAX_SLOTS && IsReady(a, n) :: Read(a.mem, a.nodes[n].control)
  }

  /** The simple specification: only a successful SetCache adds, only an eviction removes. */
  function NextContents(m: Cache, e: Event, r: Reply): Cache {
    match (e, r)
    case (DoSet(n, payload), Answered(Ok(true))) => if n < 0 then m else m[n := payload]
    case (DoCollect, Collected(Evicted(n))) => m - {n}
    case _ => m
  }

  // ----- reading -----

  /** The truncated offset in a control word still leads to the payload behind the header. */
  lemma ReadOfPacked(mem: Memory, s: NodeState, b: EvictState, v: nat, length: nat)
    requires length <= MAX_PAYLOAD_LENGTH
    ensures Read(mem, Packed(s, b, length, v)) == Slice(mem, v + HDR, length)
  {
    hide Slice;
    SliceOfMasked(mem, v, length, HDR);
    assert Packed(s, b, length, v) == Control(s, b, length, v % OFFSET_MODULUS);
  }

  lemma PayloadBehindHeader(mem: Memory, v: nat, node: Uint32, payload: seq<Byte>)
    requires |payload| <= MAX_PAYLOAD_LENGTH
    requires Slice(mem, v, HDR + |payload|) == RecordBytes(node, payload)
    ensures Slice(mem, v + HDR, |payload|) == payload
  {
    assert RecordBytes(node, payload)[HDR..HDR + |payload|] == payload;
    hide Slice, RecordBytes;
    SubSlice(mem, v, HDR + |payload|, HDR, HDR + |payload|);
  }

  lemma OwnerReads(a: Arena, q: seq<Record>, i: nat, n: nat)
    requires Inv(a, q) && n < TOTAL_MAX_SLOTS && Owns(q, i, n, a.nodes[n].control)
    ensures Read(a.mem, a.nodes[n].control) == q[i].payload
  {
    var c := a.nodes[n].control;
    assert Stored(a.mem, q[i]);
    ReadOfPacked(a.mem, c.state, c.refBit, q[i].start, c.length);
    PayloadBehindHeader(a.mem, q[i].start, q[i].node, q[i].payload);
  }

  /**
    A granted write spares every readable payload, even where it overshoots the window:
    the overshoot is shorter than the header in front of the oldest payload.
   */
  lemma ReadSurvivesAppend(a: Arena, q: seq<Record>, n: nat, bytes: seq<Byte>)
    requires Inv(a, q) && IsReady(a, n)
    requires a.head + |bytes| - a.tail < SIZE
    ensures Read(Put(a.mem, a.head + Pad(a.head), bytes), a.nodes[n].control) == Read(a.mem, a.nodes[n].control)
  {
    var c, v := a.nodes[n].control, a.head + Pad(a.head);
    var i :| Owns(q, i, n, c);
    SliceOfMasked(a.mem, q[i].start, c.length, HDR);
    SliceOfMasked(Put(a.mem, v, bytes), q[i].start, c.length, HDR);
    PutFrame(a.mem, v, bytes, q[i].start + HDR, c.length);
  }

  lemma AllocateGrants(a: Arena, q: seq<Record>, length: nat)
    requires Inv(a, q) && length <= MAX_PAYLOAD_LENGTH
    ensures Allocate(a.head, a.tail, length) ==
            if a.head + HDR + length - a.tail < SIZE then Granted(a.head + Pad(a.head)) else Exhausted
  {
  }

  lemma ContentsAre(a: Arena, m: Cache)
    requires forall n: nat :: n in m <==> IsReady(a, n)
    requires forall n: nat | n < TOTAL_MAX_SLOTS && n in m :: m[n] == Read(a.mem, a.nodes[n].control)
    ensures Contents(a) == m
  {
  }

  // ----- one step -----

  /**
    Write and read are inverse wherever the record lies, across the border or not, and whether
    the reader has the full offset or the one that fits the control word.
   */
  lemma WriteReadRoundTrip(mem: Memory, v: nat, node: Uint32, payload: seq<Byte>)
    requires |payload| <= MAX_PAYLOAD_LENGTH
    ensures Slice(Put(mem, v, RecordBytes(node, payload)), v + HDR, |payload|) == payload
    ensures Read(Put(mem, v, RecordBytes(node, payload)), Packed(Ready, Hot, |payload|, v)) == payload
  {
    hide Put, Slice, RecordBytes, Read, Packed;
    var mem' := Put(mem, v, RecordBytes(node, payload));
    PutThenSlice(mem, v, RecordBytes(node, payload));
    PayloadBehindHeader(mem', v, node, payload);
    ReadOfPacked(mem', Ready, Hot, v, |payload|);
  }

  /** A record that no slot takes over changes nothing readable. */
  lemma AppendRefines(a: Arena, q: seq<Record>, node: Uint32, payload: seq<Byte>)
    requires Inv(a, q) && |payload| <= MAX_PAYLOAD_LENGTH
    requires a.head + HDR + |payload| - a.tail < SIZE
    ensures Contents(Append(a, a.head + Pad(a.head), node, payload)) == Contents(a)
  {
    var a' := Append(a, a.head + Pad(a.head), node, payload);
    forall n: nat | IsReady(a, n)
      ensures Read(a'.mem, a.nodes[n].control) == Read(a.mem, a.nodes[n].control)
    {
      ReadSurvivesAppend(a, q, n, RecordBytes(node, payload));
    }
    ContentsAre(a', Contents(a));
  }

  lemma FillRefines(a: Arena, q: seq<Record>, node: nat, payload: seq<Byte>)
    requires Inv(a, q) && node < TOTAL_MAX_SLOTS && |payload| <= MAX_PAYLOAD_LENGTH
    requires a.head + HDR + |payload| - a.tail < SIZE
    ensures var v := a.head + Pad(a.head);
            Contents(Append(a, v, node, payload).(
                       nodes := SetControl(a.nodes, node, Packed(Ready, Hot, |payload|, v)))) ==
            Contents(a)[node := payload]
  {
    hide Inv;
    var v := a.head + Pad(a.head);
    var w := Append(a, v, node, payload);
    var a' := w.(nodes := SetControl(a.nodes, node, Packed(Ready, Hot, |payload|, v)));
    AppendRefines(a, q, node, payload);
    WriteReadRoundTrip(a.mem, v, node, payload);
    forall n: nat | IsReady(a, n)
      ensures Read(a'.mem, a.nodes[n].control) == Read(a.mem, a.nodes[n].control)
    {
      assert Contents(w)[n] == Contents(a)[n];
    }
    ContentsAre(a', Contents(a)[node := payload]);
  }

  lemma SetCacheRefines(a: Arena, q: seq<Record>, node: int, payload: seq<Byte>)
    requires Inv(a, q) && node < TOTAL_MAX_SLOTS
    ensures SetCache(a, node, payload).1 == Ok(true) ==> node >= 0
    ensures Contents(SetCache(a, node, payload).0) ==
            if SetCache(a, node, payload).1 == Ok(true) then Contents(a)[node := payload] else Contents(a)
  {
    hide Inv;
    if SetCache(a, node, payload).1.Ok? {
      AllocateGrants(a, q, |payload|);
      if a.nodes[node].control.state.Pending? {
        FillRefines(a, q, node, payload);
      } else {
        AppendRefines(a, q, node, payload);
      }
    }
  }

  /**
    Exactly what a SetCache answers: a bad argument is refused, a full ring is an internal error, and
    otherwise it succeeds if and only if the slot is pending, wherever in the buffer the record lies.
   */
  lemma SetCacheAnswers(a: Arena, q: seq<Record>, node: int, payload: seq<Byte>)
    requires Sound(a, q) && node < TOTAL_MAX_SLOTS
    ensures var (a', status) := SetCache(a, node, payload);
            if node < 0 || payload == [] || |payload| > 0xFF_FFFF then status == InvalidArgument && a' == a
            else if a.head + 12 + |payload| - a.tail >= 0x1_0000_0000 then status == Internal && a' == a
            else
              var v := a.head + Pad(a.head);
              status == Ok(a.nodes[node].control.state.Pending?) &&
              a'.tail == a.tail && a'.head == v + 12 + |payload| &&
              a'.nodes == if status.success
                          then a.nodes[node := MetaNode(a.nodes[node].createdAt,
                                                        Control(Ready, Hot, |payload|, v % 0x20_0000_0000))]
                          else a.nodes
  {
  }

  lemma RescuedReads(a: Arena, q: seq<Record>, offset: nat)
    requires Inv(a, q) && q != [] && q[0].start == a.tail
    requires IsReady(a, q[0].node) && a.nodes[q[0].node].control.offset == a.tail % OFFSET_MODULUS
    requires |q[0].payload| <= MAX_PAYLOAD_LENGTH
    ensures var bytes := RecordBytes(q[0].node, q[0].payload);
            Read(Put(a.mem, offset, bytes), Moved(a.nodes[q[0].node], offset).control) ==
            Read(a.mem, a.nodes[q[0].node].control)
  {
    var h := q[0].node;
    var c, mem' := a.nodes[h].control, Put(a.mem, offset, RecordBytes(h, q[0].payload));
    OwnerAtTail(a, q, h);
    OwnerReads(a, q, 0, h);
    hide Inv, Put, Slice, RecordBytes, Read;
    PutThenSlice(a.mem, offset, RecordBytes(h, q[0].payload));
    PayloadBehindHeader(mem', offset, h, q[0].payload);
    ReadOfPacked(mem', c.state, Cold, offset, c.length);
  }

  lemma RelocateRefines(a: Arena, q: seq<Record>, offset: nat, tail: nat)
    requires Inv(a, q) && q != [] && q[0].start == a.tail
    requires q[0].node < TOTAL_MAX_SLOTS && |q[0].payload| <= MAX_PAYLOAD_LENGTH
    requires a.nodes[q[0].node].control.offset == a.tail % OFFSET_MODULUS
    requires offset == a.head + Pad(a.head) && a.head + HDR + |q[0].payload| - a.tail < SIZE
    ensures var n := q[0].node;
            Contents(Append(a, offset, n, q[0].payload).(
                       tail := tail, nodes := a.nodes[n := Moved(a.nodes[n], offset)])) == Contents(a)
  {
    var h, bytes := q[0].node, RecordBytes(q[0].node, q[0].payload);
    var a' := Append(a, offset, h, q[0].payload).(tail := tail, nodes := a.nodes[h := Moved(a.nodes[h], offset)]);
    forall n: nat | IsReady(a, n)
      ensures Read(a'.mem, a'.nodes[n].control) == Read(a.mem, a.nodes[n].control)
    {
      if n == h {
        RescuedReads(a, q, offset);
      } else {
        ReadSurvivesAppend(a, q, n, bytes);
      }
    }
    ContentsAre(a', Contents(a));
  }

  lemma RescueRefines(a: Arena, q: seq<Record>)
    requires Inv(a, q) && Collect(a).1.Rescued?
    ensures Contents(Collect(a).0) == Contents(a)
  {
    hide Inv;
    RescueCopiesTheOldest(a, q);
    RelocateRefines(a, q, Collect(a).1.offset, End(q[0]));
  }

  lemma EvictRefines(a: Arena)
    requires Collect(a).1.Evicted?
    ensures Contents(Collect(a).0) == Contents(a) - {Collect(a).1.node}
  {
    ContentsAre(Collect(a).0, Contents(a) - {Collect(a).1.node});
  }

  lemma OtherOutcomesRefine(a: Arena)
    requires !Collect(a).1.Evicted? && !Collect(a).1.Rescued?
    ensures Contents(Collect(a).0) == Contents(a)
  {
    assert Collect(a).0.mem == a.mem && Collect(a).0.nodes == a.nodes;
  }

  lemma CollectRefines(a: Arena, q: seq<Record>)
    requires Inv(a, q)
    ensures Contents(Collect(a).0) ==
            if Collect(a).1.Evicted? then Contents(a) - {Collect(a).1.node} else Contents(a)
  {
    hide Inv;
    if Collect(a).1.Rescued? {
      RescueRefines(a, q);
    } else if Collect(a).1.Evicted? {
      EvictRefines(a);
    } else {
      OtherOutcomesRefine(a);
    }
  }

  lemma SetStepRefines(a: Arena, q: seq<Record>, e: Event)
    requires Inv(a, q) && InTable(e) && e.DoSet?
    ensures Contents(Step(a, e).0) == NextContents(Contents(a), e, Step(a, e).1)
  {
    hide Inv;
    SetCacheRefines(a, q, e.target, e.payload);
  }

  lemma CollectStepRefines(a: Arena, q: seq<Record>, e: Event)
    requires Inv(a, q) && e.DoCollect?
    ensures Contents(Step(a, e).0) == NextContents(Contents(a), e, Step(a, e).1)
  {
    hide Inv;
    CollectRefines(a, q);
  }

  lemma SlotStepRefines(a: Arena, e: Event)
    requires InTable(e) && !e.DoSet? && !e.DoCollect? && NoMigrating(a)
    ensures Contents(Step(a, e).0) == NextContents(Contents(a), e, Step(a, e).1)
    ensures e.DoHit? ==>
              Step(a, e).1 == if e.node in Contents(a) then Served(Contents(a)[e.node]) else Missed
  {
  }

  lemma OvershotSetRefines(a: Arena, q: seq<Record>, e: Event)
    requires Sound(a, q) && !SpanFits(a) && InTable(e) && e.DoSet?
    ensures Contents(Step(a, e).0) == NextContents(Contents(a), e, Step(a, e).1)
  {
    hide Sound, Contents;
    OvershotStaysOvershot(a, q, e);
  }

  /**
    Refinement, one step: the bytes follow the map, and a hit answers with the map's value. The
    step may overshoot, and may follow an overshoot, unless it is the collector's.
   */
  lemma StepRefines(a: Arena, q: seq<Record>, e: Event)
    requires Sound(a, q) && InTable(e) && (e.DoCollect? ==> SpanFits(a))
    ensures Contents(Step(a, e).0) == NextContents(Contents(a), e, Step(a, e).1)
    ensures e.DoHit? ==>
              Step(a, e).1 == if e.node in Contents(a) then Served(Contents(a)[e.node]) else Missed
  {
    hide Inv, Sound, NoMigrating, SpanFits;
    SoundMeansInv(a, q);
    if e.DoSet? {
      if SpanFits(a) {
        SetStepRefines(a, q, e);
      } else {
        OvershotSetRefines(a, q, e);
      }
    } else if e.DoCollect? {
      CollectStepRefines(a, q, e);
    } else {
      NoneMigrating(a, q);
      SlotStepRefines(a, e);
    }
  }

  // ----- many steps, one entry -----

  /** What a step does to one entry of the map. */
  datatype Change = Kept | Filled(payload: seq<Byte>) | Dropped

  predicate Changes(before: Cache, after: Cache, n: nat, c: Change) {
    match c
    case Kept => (n in after <==> n in before) && (n in before ==> after[n] == before[n])
    case Filled(payload) => n in after && after[n] == payload
    case Dropped => n !in after
  }

  /** Step j is the latest to fill the entry before step k, and it has not been dropped since. */
  ghost predicate Latest(changes: seq<Change>, k: nat, j: nat)
    requires k <= |changes|
  {
    j < k && changes[j].Filled? && forall i :: j < i < k ==> changes[i].Kept?
  }

  /** An entry is there iff it has been filled and not dropped since, and is what it was filled with last. */
  lemma {:induction false} HeldIffLatest(maps: seq<Cache>, changes: seq<Change>, n: nat, k: nat)
    requires |maps| == |changes| + 1 && n !in maps[0] && k <= |changes|
    requires forall i :: 0 <= i < |changes| ==> Changes(maps[i], maps[i + 1], n, changes[i])
    ensures n in maps[k] <==> exists j: nat :: Latest(changes, k, j)
    ensures forall j: nat :: Latest(changes, k, j) ==> n in maps[k] && maps[k][n] == changes[j].payload
  {
    if k > 0 {
      var c := changes[k - 1];
      HeldIffLatest(maps, changes, n, k - 1);
      assert Changes(maps[k - 1], maps[k], n, c);
      assert forall j: nat :: Latest(changes, k, j) <==>
                                if c.Filled? then j == k - 1 else c.Kept? && Latest(changes, k - 1, j);
      if c.Filled? {
        assert Latest(changes, k, k - 1);
      } else if n in maps[k] {
        var j: nat :| Latest(changes, k - 1, j);
        assert Latest(changes, k, j);
      }
    }
  }
}
