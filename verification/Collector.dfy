/** The collector over many iterations: it comes to rest, or finds the ring exhausted, and says when. */
module Collector {
  import opened Node
  import opened Ring
  import opened ArenaModel
  import opened Invariant
  import opened Refinement
  import opened Runs

  function Heat(m: MetaNode): nat {
    if !m.control.state.Dead? && m.control.refBit.Hot? then 1 else 0
  }

  /** Number of slots that would be rescued if the collector met their record now. */
  function HotCount(nodes: seq<MetaNode>): nat {
    if nodes == [] then 0 else Heat(nodes[0]) + HotCount(nodes[1..])
  }

  lemma {:induction false} HotCountAfterUpdate(nodes: seq<MetaNode>, i: nat, m: MetaNode)
    requires i < |nodes|
    ensures HotCount(nodes[i := m]) + Heat(nodes[i]) == HotCount(nodes) + Heat(m)
  {
    if i == 0 {
      assert nodes[0 := m][1..] == nodes[1..];
    } else {
      assert nodes[i := m][1..] == nodes[1..][i - 1 := m];
      HotCountAfterUpdate(nodes[1..], i - 1, m);
    }
  }

  /**
    Each iteration cools a slot or shortens the window. A rescue may lengthen the window by its
    padding, so the number of hot slots comes first.
   */
  lemma CollectMakesProgress(a: Arena, q: seq<Record>)
    requires Inv(a, q)
    ensures var (b, o) := Collect(a);
            match o
            case Idle => b == a && a.head - a.tail < LOW_WATERMARK_THRESHOLD
            case RescueFailed => b == a && q != [] && a.head + HDR + |q[0].payload| - a.tail >= SIZE
            case Rescued(_, _) => HotCount(b.nodes) == HotCount(a.nodes) - 1
            case _ => HotCount(b.nodes) <= HotCount(a.nodes) && b.head - b.tail < a.head - a.tail
  {
    hide Inv, Put, Slice, RecordBytes, HeaderAt;
    CollectorSeesTheQueue(a, q);
    WindowIsOrdered(a, q);
    match Collect(a).1
    case Evicted(n) => SlotChangeCools(a, n);
    case Rescued(n, _) => SlotChangeCools(a, n);
    case _ =>
  }

  /**
    What an iteration does, by the oldest record and its slot: rest below the watermark, leap over
    padding, skip a record that its slot does not point at, evict a cold slot, rescue a hot one.
   */
  lemma CollectDecides(a: Arena, q: seq<Record>)
    requires Inv(a, q)
    ensures var (b, o) := Collect(a);
            if a.head - a.tail < 0x8000_0000 then o == Idle && b == a
            else if Pad(a.tail) > 0 then o == Leapt && b == a.(tail := a.tail + Pad(a.tail))
            else
              q != [] && q[0].node < TOTAL_MAX_SLOTS && |q[0].payload| <= MAX_PAYLOAD_LENGTH &&
              var n, m := q[0].node, a.nodes[q[0].node];
              if m.control.state.Dead? || m.control.offset != a.tail % 0x20_0000_0000
              then o == Skipped && b == a.(tail := End(q[0]))
              else if m.control.refBit.Cold? then
                o == Evicted(n) &&
                b == a.(tail := End(q[0]), nodes := a.nodes[n := MetaNode(0, m.control.(state := Dead))])
              else if a.head + 12 + |q[0].payload| - a.tail >= SIZE then o == RescueFailed && b == a
              else o == Rescued(n, a.head + Pad(a.head)) && b.tail == End(q[0])
  {
    hide Inv, Put, Slice, RecordBytes, HeaderAt;
    CollectorSeesTheQueue(a, q);
    WindowIsOrdered(a, q);
  }

  /**
    When a rescue is refused, which the source answers by an exception that nothing on the
    collector's thread catches: the window is over the low watermark, the slot of the oldest record
    is in use, hot and points at it, and the ring has no room for a second copy.
   */
  lemma RescueFailsIff(a: Arena, q: seq<Record>)
    requires Inv(a, q)
    ensures Collect(a).1.RescueFailed? <==>
            a.head - a.tail >= LOW_WATERMARK_THRESHOLD && Pad(a.tail) == 0 &&
            q != [] && q[0].node < TOTAL_MAX_SLOTS &&
            var c := a.nodes[q[0].node].control;
            !c.state.Dead? && c.refBit.Hot? && c.offset == a.tail % OFFSET_MODULUS &&
            a.head + HDR + |q[0].payload| - a.tail >= SIZE
  {
    hide Inv, Put, Slice, RecordBytes, HeaderAt;
    CollectorSeesTheQueue(a, q);
    WindowIsOrdered(a, q);
  }

  /** An eviction leaves no more hot slots than before, a rescue one less. */
  lemma SlotChangeCools(a: Arena, n: nat)
    requires Collect(a).1.Evicted? || Collect(a).1.Rescued?
    requires n == Collect(a).1.node
    ensures HotCount(Collect(a).0.nodes) == HotCount(a.nodes) - if Collect(a).1.Rescued? then 1 else 0
  {
    hide Put, Slice, RecordBytes, HeaderAt, HotCount;
    HotCountAfterUpdate(a.nodes, n, Collect(a).0.nodes[n]);
  }

  function Collects(a: Arena, k: nat): Arena
    decreases k
  {
    if k == 0 then a else Collects(Collect(a).0, k - 1)
  }

  lemma {:induction false} CollectsOneMore(a: Arena, k: nat)
    ensures Collects(a, k + 1) == Collect(Collects(a, k)).0
    decreases k
  {
    if k > 0 {
      CollectsOneMore(Collect(a).0, k - 1);
    }
  }

  /** `m` holds nothing that `m'` does not hold with the same value. */
  ghost predicate Within(m: Cache, m': Cache) {
    forall n :: n in m ==> n in m' && m[n] == m'[n]
  }

  /**
    Left alone in a state that satisfies the invariant, the collector comes to rest: after finitely
    many iterations the window is below the low watermark, or a rescue finds the ring exhausted.
    Until then it only forgets entries.
   */
  lemma {:induction false} CollectorComesToRest(a: Arena, q: seq<Record>) returns (k: nat, q': seq<Record>)
    requires Inv(a, q)
    ensures Inv(Collects(a, k), q')
    ensures var b := Collects(a, k);
            match Collect(b).1
            case Idle => b.head - b.tail < LOW_WATERMARK_THRESHOLD
            case RescueFailed => q' != [] && b.head + HDR + |q'[0].payload| - b.tail >= SIZE
            case _ => false
    ensures Within(Contents(Collects(a, k)), Contents(a))
    decreases HotCount(a.nodes), a.head - a.tail
  {
    hide Inv, Contents;
    CollectMakesProgress(a, q);
    var b, o := Collect(a).0, Collect(a).1;
    if o.Idle? || o.RescueFailed? {
      k, q' := 0, q;
    } else {
      WindowIsOrdered(a, q);
      CollectKeepsInv(a, q);
      CollectRefines(a, q);
      CollectorSeesTheQueue(a, q);
      k, q' := CollectorComesToRest(b, QueueAfter(q, o));
      k := k + 1;
    }
  }

  /** In particular this is so wherever a run has got to whose records all fit. */
  lemma FittingRunComesToRest(states: seq<Arena>, events: seq<Event>) returns (k: nat, q: seq<Record>)
    requires Run(states, events) && Fitting(states, events)
    ensures var b := Collects(states[|events|], k);
            Inv(b, q) && Within(Contents(b), Contents(states[|events|])) &&
            match Collect(b).1
            case Idle => b.head - b.tail < LOW_WATERMARK_THRESHOLD
            case RescueFailed => q != [] && b.head + HDR + |q[0].payload| - b.tail >= SIZE
            case _ => false
  {
    hide Inv, Contents, Collect, Collects;
    FittingRunKeepsInv(states, events, |events|);
    k, q := CollectorComesToRest(states[|events|], Allocated(states, events, |events|));
  }
}
