/**
  The arena as a value, and each RPC effect and each collector iteration as one atomic
  step on it. The methods of the classes in MemoryArena.dfy and Service.dfy are proved to
  compute these functions; Invariant.dfy and Refinement.dfy prove what they mean.
 */
module ArenaModel {
  import opened Node
  import opened Ring

  const TOTAL_MAX_SLOTS: nat := 501_000
  const LOW_WATERMARK_THRESHOLD: nat := 0x8000_0000

  datatype Option<T> = None | Some(value: T)

  // uint64_t differences wrap
  const UINT64: nat := 0x1_0000_0000_0000_0000

  /** A control word by its fields; Node.dfy shows that words and fields correspond one to one. */
  datatype Control = Control(state: NodeState, refBit: EvictState, length: nat, offset: nat)

  datatype MetaNode = MetaNode(createdAt: nat, control: Control)

  type Table = t: seq<MetaNode> | |t| == TOTAL_MAX_SLOTS
    witness seq(TOTAL_MAX_SLOTS, _ => MetaNode(0, Control(Dead, Cold, 0, 0)))

  datatype Arena = Arena(mem: Memory, head: nat, tail: nat, nodes: Table)

  /** PackControl, with its two masks written as remainders. */
  function Packed(state: NodeState, refBit: EvictState, length: nat, offset: nat): Control {
    Control(state, refBit, length % (MAX_PAYLOAD_LENGTH + 1), offset % OFFSET_MODULUS)
  }

  function SetControl(nodes: Table, n: nat, c: Control): Table
    requires n < TOTAL_MAX_SLOTS
  {
    nodes[n := nodes[n].(control := c)]
  }

  function Initial(): Arena {
    Arena(seq(SIZE, _ => 0), 0, 0, seq(TOTAL_MAX_SLOTS, _ => MetaNode(0, Control(Dead, Cold, 0, 0))))
  }

  // ----- allocation and payload I/O -----

  datatype Allocation = Exhausted | Granted(offset: nat)

  /** AllocatePayload: the back-pressure test comes first and leaves the padding out. */
  function Allocate(head: nat, tail: nat, length: nat): Allocation {
    if (head + (HDR + length) - tail) % UINT64 >= SIZE then Exhausted else Granted(head + Pad(head))
  }

  function Append(a: Arena, offset: nat, node: Uint32, payload: seq<Byte>): Arena
    requires |payload| <= MAX_PAYLOAD_LENGTH
  {
    a.(mem := Put(a.mem, offset, RecordBytes(node, payload)), head := offset + HDR + |payload|)
  }

  /** ReadPayload, from the offset and length that a control word carries. */
  function Read(mem: Memory, c: Control): seq<Byte> {
    Slice(mem, c.offset + HDR, c.length)
  }

  // ----- service steps -----

  datatype SetStatus = InvalidArgument | Internal | Ok(success: bool)

  function SetCache(a: Arena, node: int, payload: seq<Byte>): (Arena, SetStatus)
    requires node < TOTAL_MAX_SLOTS
  {
    if node < 0 || payload == [] || |payload| > MAX_PAYLOAD_LENGTH then (a, InvalidArgument)
    else
      match Allocate(a.head, a.tail, |payload|)
      case Exhausted => (a, Internal)
      case Granted(offset) =>
        var w := Append(a, offset, node, payload);
        if a.nodes[node].control.state.Pending? then
          (w.(nodes := SetControl(a.nodes, node, Packed(Ready, Hot, |payload|, offset))), Ok(true))
        else (w, Ok(false))
  }

  /** CheckCache takes over a dead slot. */
  function Claim(a: Arena, n: nat, now: nat): Arena
    requires n < TOTAL_MAX_SLOTS
  {
    if a.nodes[n].control.state.Dead? then a.(nodes := a.nodes[n := MetaNode(now, Packed(Pending, Hot, 0, 0))])
    else a
  }

  /** CheckCache gives up a pending slot. */
  function Expire(a: Arena, n: nat): Arena
    requires n < TOTAL_MAX_SLOTS
  {
    var c := a.nodes[n].control;
    if c.state.Pending? then a.(nodes := a.nodes[n := MetaNode(0, c.(state := Dead))]) else a
  }

  predicate Readable(c: Control) {
    c.state.Ready? || c.state.Migrating?
  }

  /** CheckCache serves a slot: what it copies out is `Read`, and the slot becomes hot. */
  function Hit(a: Arena, n: nat): Arena
    requires n < TOTAL_MAX_SLOTS
  {
    var c := a.nodes[n].control;
    if Readable(c) then a.(nodes := SetControl(a.nodes, n, c.(refBit := Hot))) else a
  }

  // ----- the collector -----

  datatype Outcome =
    | Idle
    | Leapt
    | BadHeader
    | ForeignHeader  // node id past the table or length over the limit; Invariant.dfy shows it never occurs
    | Skipped
    | Evicted(node: nat)
    | RescueFailed
    | Rescued(node: nat, offset: nat)

  /** One iteration of RunGarbageCollector. A failed rescue is a step that changes nothing. */
  function Collect(a: Arena): (Arena, Outcome) {
    var i := a.tail % SIZE;
    if (a.head - a.tail) % UINT64 < LOW_WATERMARK_THRESHOLD then (a, Idle)
    else if SIZE - i < HDR then (a.(tail := a.tail + (SIZE - i)), Leapt)
    else
      var h := HeaderAt(a.mem, i);
      if h.identifier != VALID_IDENTIFIER then (a.(tail := a.tail + 1), BadHeader)
      else if h.nodeId >= TOTAL_MAX_SLOTS || h.length > MAX_PAYLOAD_LENGTH then (a, ForeignHeader)
      else
        var tail' := a.tail + HDR + h.length;
        var c := a.nodes[h.nodeId].control;
        if c.state.Dead? || c.offset != a.tail % OFFSET_MODULUS then (a.(tail := tail'), Skipped)
        else if c.refBit.Cold? then
          (a.(tail := tail', nodes := a.nodes[h.nodeId := MetaNode(0, c.(state := Dead))]), Evicted(h.nodeId))
        else
          match Allocate(a.head, a.tail, h.length)
          case Exhausted => (a, RescueFailed)
          case Granted(offset) =>
            var w := Append(a, offset, h.nodeId, Slice(a.mem, a.tail + HDR, h.length));
            (w.(tail := tail', nodes := SetControl(a.nodes, h.nodeId, Packed(c.state, Cold, c.length, offset))),
             Rescued(h.nodeId, offset))
  }

  // ----- one step of the whole system -----

  datatype Event =
    | DoClaim(node: nat, now: nat)
    | DoExpire(node: nat)
    | DoHit(node: nat)
    | DoSet(target: int, payload: seq<Byte>)
    | DoCollect

  datatype Reply =
    | Done
    | Served(bytes: seq<Byte>)
    | Missed
    | Answered(status: SetStatus)
    | Collected(outcome: Outcome)

  /** Node ids come from CheckCache, so they index the table (or are negative). */
  predicate InTable(e: Event) {
    match e
    case DoCollect => true
    case DoSet(n, _) => n < TOTAL_MAX_SLOTS
    case _ => e.node < TOTAL_MAX_SLOTS
  }

  function Step(a: Arena, e: Event): (Arena, Reply)
    requires InTable(e)
  {
    match e
    case DoClaim(n, now) => (Claim(a, n, now), Done)
    case DoExpire(n) => (Expire(a, n), Done)
    case DoHit(n) =>
      (Hit(a, n), if Readable(a.nodes[n].control) then Served(Read(a.mem, a.nodes[n].control)) else Missed)
    case DoSet(n, payload) =>
      var (a', status) := SetCache(a, n, payload);
      (a', Answered(status))
    case DoCollect =>
      var (a', outcome) := Collect(a);
      (a', Collected(outcome))
  }
}
